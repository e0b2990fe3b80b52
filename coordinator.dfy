/** What the programs' `main` functions decide before any work starts, and
    the agreement of all strategies on the matrix they produce. */
module Coordinator {
  import opened Matrix
  import Sequential
  import Rows
  import Elements
  import Blocks

  /** Worker processes actually started: the requested number, capped at
      the number of cores. */
  function ProcessCount(requested: int, cores: int): (n: int)
    ensures n <= requested && n <= cores
    ensures n == requested || n == cores
  {
    if requested > cores then cores else requested
  }

  /** Run on the same A and B, the sequential baseline and the row, element
      and (with a block size that divides size) block strategies write the
      same matrix, cell for cell, whatever the completion orders. */
  method StrategiesAgree(size: nat, blockSize: nat, A: array<int>, B: array<int>,
                         C1: array<int>, C2: array<int>, C3: array<int>, C4: array<int>,
                         rowOrder: seq<nat>, cellOrder: seq<nat>, blockOrder: seq<nat>)
    requires Shape(size, A, B, C1) && Shape(size, A, B, C2) && Shape(size, A, B, C3) && Shape(size, A, B, C4)
    requires C1 != C2 && C1 != C3 && C1 != C4 && C2 != C3 && C2 != C4 && C3 != C4
    requires IsPermutation(rowOrder, size) && IsPermutation(cellOrder, size * size)
    requires blockSize > 0 ==> IsPermutation(blockOrder, Blocks.BlockCount(size, blockSize))
    modifies C1, C2, C3, C4
    ensures C1[..] == C2[..] == C3[..]
    ensures blockSize > 0 && size % blockSize == 0 ==> C4[..] == C1[..]
  {
    Sequential.SequentialMult(size, A, B, C1);
    var rows := Rows.RunRows(size, A, B, C2, rowOrder);
    var cells := Elements.RunElements(size, A, B, C3, cellOrder);
    var ok := Blocks.BlockedMult(size, blockSize, A, B, C4, blockOrder);
  }
}
