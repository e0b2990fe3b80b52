/** The single-process baseline `sequential_mult`, the same triple loop in
    both versions of the sequential program. */
module Sequential {
  import opened Matrix

  /** Fills all of C row by row: each cell is zeroed and then accumulates
      A[i][k] * B[k][j] over k < size. The result is A×B whatever C held
      before, and A and B are left as they were. */
  method SequentialMult(size: nat, A: array<int>, B: array<int>, C: array<int>)
    requires Shape(size, A, B, C)
    modifies C
    ensures C[..] == Product(A[..], B[..], size)
    ensures A[..] == old(A[..]) && B[..] == old(B[..])
  {
    for i := 0 to size
      invariant forall i': nat, j': nat :: i' < size && j' < size ==>
                  C[Idx(size, i', j')] == if i' < i then Cell(A[..], B[..], size, i', j')
                                          else old(C[Idx(size, i', j')])
    {
      for j := 0 to size
        invariant forall i': nat, j': nat :: i' < size && j' < size ==>
                    C[Idx(size, i', j')] == if i' < i || (i' == i && j' < j) then Cell(A[..], B[..], size, i', j')
                                            else old(C[Idx(size, i', j')])
      {
        ComputeCell(size, A, B, C, i, j);
      }
    }
    ProductFromCells(C[..], A[..], B[..], size);
  }
}
