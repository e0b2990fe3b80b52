/** Element granularity: one unit of work is one cell of C. The shared
    cursor is a pair (row, col) advanced with a carry, as in
    `compute_element`. */
module Elements {
  import opened Matrix

  /** One step of the element cursor: the column goes up by one, and once it
      reaches `size` it wraps to 0 and the row goes up by one. */
  function Advance(size: nat, row: int, col: int): (int, int) {
    if col + 1 >= size then (row + 1, 0) else (row, col + 1)
  }

  /** With a column inside [0, size), a step keeps the column inside
      [0, size) and moves the row-major position forward by exactly one. */
  lemma AdvanceStep(size: nat, row: int, col: int)
    requires size > 0 && 0 <= col < size
    ensures 0 <= Advance(size, row, col).1 < size
    ensures Advance(size, row, col).0 * size + Advance(size, row, col).1 == row * size + col + 1
  {
    if col + 1 >= size {
      assert (row + 1) * size == row * size + size;
    }
  }

  /** The cursor after `t` claims, starting from (0, 0) as every run does. */
  function Iterate(size: nat, t: nat): (int, int) {
    if t == 0 then (0, 0)
    else
      var prev := Iterate(size, t - 1);
      Advance(size, prev.0, prev.1)
  }

  /** A step takes the cursor at position t to position t + 1. */
  lemma AdvanceCounts(size: nat, t: nat)
    requires size > 0
    ensures Advance(size, t / size, t % size) == ((t + 1) / size, (t + 1) % size)
  {
    var q, r := t / size, t % size;
    if r + 1 < size {
      DivModUnique(t + 1, size, q, r + 1);
    } else {
      DivModUnique(t + 1, size, q + 1, 0);
    }
  }

  /** After t claims the cursor stands at row t / size, column t % size (for
      size 0, at row t, column 0). */
  lemma {:induction false} IterateIsPosition(size: nat, t: nat)
    ensures size > 0 ==> Iterate(size, t) == (t / size, t % size)
    ensures size == 0 ==> Iterate(size, t) == (t, 0)
  {
    if t > 0 {
      IterateIsPosition(size, t - 1);
      if size > 0 {
        AdvanceCounts(size, t - 1);
      }
    }
  }

  /** Claim number t (counting from 0) yields a valid cell exactly when
      t < size², and then it yields the cell at row-major position t. So the
      first size² claims hand out every cell once, in row-major order. */
  lemma ClaimOrder(size: nat, t: nat)
    ensures 0 <= Iterate(size, t).0 && 0 <= Iterate(size, t).1
    ensures Iterate(size, t).0 < size <==> t < size * size
    ensures t < size * size ==>
              (Iterate(size, t).1 < size && Idx(size, Iterate(size, t).0, Iterate(size, t).1) == t)
  {
    IterateIsPosition(size, t);
    if size > 0 {
      RowOfPosition(size, t);
      if t < size * size {
        PositionIsCell(size, t);
      }
    }
  }

  /** Every cell of the grid is handed out by the claim at its own position. */
  lemma EveryCellClaimed(size: nat, i: nat, j: nat)
    requires i < size && j < size
    ensures Iterate(size, Idx(size, i, j)) == (i, j)
  {
    var t := Idx(size, i, j);
    ClaimOrder(size, t);
    IdxInjective(size, i, j, Iterate(size, t).0, Iterate(size, t).1);
  }

  /** Once a claim has found the cursor exhausted, every later claim does too. */
  lemma ExhaustedStaysExhausted(size: nat, s: nat, t: nat)
    requires s <= t && Iterate(size, s).0 >= size
    ensures Iterate(size, t).0 >= size
  {
    ClaimOrder(size, s);
    ClaimOrder(size, t);
  }

  /** The shared (row, col) cursor. The ghost `claims` counts the claims made
      so far and ties the two fields to the claim order. */
  class ElementCursor {
    const size: nat
    var row: int
    var col: int
    ghost var claims: nat

    ghost predicate Valid()
      reads this
    {
      (row, col) == Iterate(size, claims)
    }

    constructor (size: nat)
      ensures Valid() && this.size == size
      ensures row == 0 && col == 0 && claims == 0
    {
      this.size := size;
      row, col := 0, 0;
      claims := 0;
    }

    /** Reads (row, col) and advances the cursor by one step, whether or not
        (row, col) still denotes a cell. */
    method Claim() returns (r: int, c: int)
      requires Valid()
      modifies this
      ensures Valid() && claims == old(claims) + 1
      ensures r == old(row) && c == old(col)
      ensures (row, col) == Advance(size, r, c)
    {
      r, c := row, col;
      col := col + 1;
      if col >= size {
        col := 0;
        row := row + 1;
      }
      claims := claims + 1;
    }
  }

  /** `compute_element` run by one worker from the cursor's current state:
      it claims cells until a claim's row reaches `size`, computing each
      claimed cell. The exhausting claim still advances the cursor. */
  method ElementWorker(size: nat, A: array<int>, B: array<int>, C: array<int>, cursor: ElementCursor)
    requires Shape(size, A, B, C) && cursor.Valid() && cursor.size == size
    modifies C, cursor
    ensures cursor.Valid()
    ensures cursor.claims == (if old(cursor.claims) < size * size then size * size else old(cursor.claims)) + 1
    ensures forall i: nat, j: nat :: i < size && j < size ==>
              C[Idx(size, i, j)] == if old(cursor.claims) <= Idx(size, i, j) then Cell(A[..], B[..], size, i, j)
                                    else old(C[Idx(size, i, j)])
  {
    while true
      invariant cursor.Valid()
      invariant old(cursor.claims) <= cursor.claims
      invariant old(cursor.claims) < cursor.claims ==> cursor.claims <= size * size
      invariant forall i: nat, j: nat :: i < size && j < size ==>
                  C[Idx(size, i, j)] == if old(cursor.claims) <= Idx(size, i, j) < cursor.claims
                                        then Cell(A[..], B[..], size, i, j)
                                        else old(C[Idx(size, i, j)])
      decreases size * size - cursor.claims
    {
      ClaimOrder(size, cursor.claims);
      var r, c := cursor.Claim();
      if r >= size {
        break;
      }
      OtherCellsElsewhere(size, r, c);
      ComputeCell(size, A, B, C, r, c);
    }
  }

  /** The claim phase of an element run: a fresh cursor is claimed from
      until a claim's row reaches `size`. Claim number t is the cursor after
      t steps, that is the cell at row-major position t, so every cell is
      handed out exactly once, in row-major order. */
  method ClaimCells(size: nat) returns (claimed: seq<(int, int)>)
    ensures |claimed| == size * size
    ensures forall t :: 0 <= t < |claimed| ==> claimed[t] == Iterate(size, t)
    ensures forall i: nat, j: nat :: i < size && j < size ==> claimed[Idx(size, i, j)] == (i, j)
  {
    var cursor := new ElementCursor(size);
    claimed := [];
    while true
      invariant cursor.Valid() && cursor.size == size
      invariant cursor.claims == |claimed| <= size * size
      invariant forall t :: 0 <= t < |claimed| ==> claimed[t] == Iterate(size, t)
      decreases size * size - |claimed|
    {
      ClaimOrder(size, |claimed|);
      var r, c := cursor.Claim();
      if r >= size {
        break;
      }
      claimed := claimed + [(r, c)];
    }
    forall i: nat, j: nat | i < size && j < size
      ensures claimed[Idx(size, i, j)] == (i, j)
    {
      EveryCellClaimed(size, i, j);
    }
  }

  /** A whole run with one or more workers: the cursor hands out cells in
      row-major order until it is exhausted (`claimed` lists them in claim
      order, so claim number i * size + j is cell (i, j)), and the claimed
      cells are then completed in an arbitrary order `perm` (a permutation
      of the claims). The result is A×B whatever the order and whatever C
      held before. */
  method RunElements(size: nat, A: array<int>, B: array<int>, C: array<int>, perm: seq<nat>)
    returns (claimed: seq<(int, int)>)
    requires Shape(size, A, B, C) && IsPermutation(perm, size * size)
    modifies C
    ensures |claimed| == size * size
    ensures forall i: nat, j: nat :: i < size && j < size ==> claimed[Idx(size, i, j)] == (i, j)
    ensures C[..] == Product(A[..], B[..], size)
  {
    claimed := ClaimCells(size);
    CompleteCells(size, A, B, C, claimed, perm);
  }

  /** The completion phase of an element run: the claimed cells are computed
      in the order `perm` (claim perm[0] first), and C ends as A×B. */
  method CompleteCells(size: nat, A: array<int>, B: array<int>, C: array<int>,
                       claimed: seq<(int, int)>, perm: seq<nat>)
    requires Shape(size, A, B, C) && IsPermutation(perm, size * size) && |claimed| == size * size
    requires forall t :: 0 <= t < |claimed| ==> claimed[t] == Iterate(size, t)
    modifies C
    ensures C[..] == Product(A[..], B[..], size)
  {
    for t := 0 to size * size
      invariant forall i: nat, j: nat :: i < size && j < size ==>
                  C[Idx(size, i, j)] == if Idx(size, i, j) in perm[..t] then Cell(A[..], B[..], size, i, j)
                                        else old(C[Idx(size, i, j)])
    {
      var s := perm[t];
      ClaimOrder(size, s);
      var r, c := claimed[s].0, claimed[s].1;
      OtherCellsElsewhere(size, r, c);
      ComputeCell(size, A, B, C, r, c);
      assert perm[..t + 1] == perm[..t] + [s];
    }
    assert perm[..size * size] == perm;
    ProductFromCells(C[..], A[..], B[..], size);
  }
}
