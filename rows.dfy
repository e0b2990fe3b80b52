/** Row granularity: one unit of work is one full row of C. The worker loop
    is `compute_row`, identical in both versions of the row program. */
module Rows {
  import opened Matrix
  import SharedCursor

  /** The row kernel: for every column j, zero C[row][j] and accumulate
      A[row][k] * B[k][j] over k < size. Only row `row` of C changes. */
  method ComputeRow(size: nat, A: array<int>, B: array<int>, C: array<int>, row: nat)
    requires Shape(size, A, B, C) && row < size
    modifies C
    ensures forall j: nat :: j < size ==> C[Idx(size, row, j)] == Cell(A[..], B[..], size, row, j)
    ensures forall i: nat, j: nat :: i < size && j < size && i != row ==>
              C[Idx(size, i, j)] == old(C[Idx(size, i, j)])
  {
    for j := 0 to size
      invariant forall j': nat :: j' < j ==> C[Idx(size, row, j')] == Cell(A[..], B[..], size, row, j')
      invariant forall i: nat, j': nat :: i < size && j' < size && (i != row || j <= j') ==>
                  C[Idx(size, i, j')] == old(C[Idx(size, i, j')])
    {
      ComputeCell(size, A, B, C, row, j);
    }
  }

  /** `compute_row` run by one worker from whatever index the shared cursor
      holds: it claims rows until a claim reaches `size`, computing each
      claimed row. The exhausting claim still advances the cursor. */
  method RowWorker(size: nat, A: array<int>, B: array<int>, C: array<int>, cursor: SharedCursor.Cursor)
    requires Shape(size, A, B, C)
    modifies C, cursor
    ensures cursor.next == (if old(cursor.next) < size then size else old(cursor.next)) + 1
    ensures forall i: nat, j: nat :: i < size && j < size ==>
              C[Idx(size, i, j)] == if old(cursor.next) <= i then Cell(A[..], B[..], size, i, j)
                                    else old(C[Idx(size, i, j)])
  {
    while true
      invariant old(cursor.next) <= cursor.next
      invariant old(cursor.next) < cursor.next ==> cursor.next <= size
      invariant forall i: nat, j: nat :: i < size && j < size ==>
                  C[Idx(size, i, j)] == if old(cursor.next) <= i < cursor.next then Cell(A[..], B[..], size, i, j)
                                        else old(C[Idx(size, i, j)])
      decreases size - cursor.next
    {
      var row := cursor.Claim();
      if row >= size {
        break;
      }
      ComputeRow(size, A, B, C, row);
    }
  }

  /** A whole run with one or more workers. The cursor hands out rows
      0, 1, ... until it is exhausted; `claimed` lists the rows handed out,
      in claim order. The claimed rows are then completed in an arbitrary
      order `perm` (a permutation of the claims), which is all a concurrent
      run can differ in, since rows are disjoint. The result is A×B whatever
      the order and whatever C held before. */
  method RunRows(size: nat, A: array<int>, B: array<int>, C: array<int>, perm: seq<nat>)
    returns (claimed: seq<nat>)
    requires Shape(size, A, B, C) && IsPermutation(perm, size)
    modifies C
    ensures |claimed| == size && forall t :: 0 <= t < size ==> claimed[t] == t
    ensures C[..] == Product(A[..], B[..], size)
  {
    claimed := SharedCursor.ClaimUntil(size);
    for t := 0 to size
      invariant forall i: nat, j: nat :: i < size && j < size ==>
                  C[Idx(size, i, j)] == if i in perm[..t] then Cell(A[..], B[..], size, i, j)
                                        else old(C[Idx(size, i, j)])
    {
      ComputeRow(size, A, B, C, claimed[perm[t]]);
      assert perm[..t + 1] == perm[..t] + [perm[t]];
    }
    assert perm[..size] == perm;
    ProductFromCells(C[..], A[..], B[..], size);
  }

  /** The fork loop of the row program on a serial schedule: `workers`
      workers share one fresh cursor and each runs `compute_row` to its end
      before the next starts. The first one does all the rows; every later
      one makes a single claim past the end and stops without writing. With
      no worker at all, nothing is claimed and C keeps what it held. */
  method RunRowWorkers(size: nat, A: array<int>, B: array<int>, C: array<int>, workers: nat)
    returns (cursor: SharedCursor.Cursor)
    requires Shape(size, A, B, C)
    modifies C
    ensures fresh(cursor) && cursor.next == if workers == 0 then 0 else size + workers
    ensures workers > 0 ==> C[..] == Product(A[..], B[..], size)
    ensures workers == 0 ==> C[..] == old(C[..])
  {
    cursor := new SharedCursor.Cursor();
    if workers == 0 {
      return;
    }
    RowWorker(size, A, B, C, cursor);
    for w := 1 to workers
      invariant cursor.next == size + w
      invariant forall i: nat, j: nat :: i < size && j < size ==>
                  C[Idx(size, i, j)] == Cell(A[..], B[..], size, i, j)
    {
      RowWorker(size, A, B, C, cursor);
    }
    ProductFromCells(C[..], A[..], B[..], size);
  }
}
