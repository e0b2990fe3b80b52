/** Square matrices stored row-major in flat buffers, the product every
    strategy computes, and the one-cell kernel all of them share. */
module Matrix {


  /** Multiplication by a non-negative factor is monotonic. */
  lemma MulMonotonic(a: int, b: int, c: nat)
    requires a <= b
    ensures a * c <= b * c
  {
    assert b * c - a * c == (b - a) * c;
  }

  /** Euclidean division is determined by its defining equation. */
  lemma DivModUnique(n: int, d: int, q: int, r: int)
    requires d > 0 && 0 <= r < d && n == q * d + r
    ensures n / d == q && n % d == r
  {
    var q0, r0 := n / d, n % d;
    assert (q - q0) * d == r0 - r;
    if q0 < q {
      MulMonotonic(1, q - q0, d);
    } else if q < q0 {
      MulMonotonic(1, q0 - q, d);
    }
  }

  /** Position of cell (i, j) in a row-major `size × size` buffer; every cell
      of the grid lies inside the buffer. */
  function Idx(size: nat, i: nat, j: nat): (p: nat)
    requires i < size && j < size
    ensures p < size * size
  {
    MulMonotonic(i + 1, size, size);
    i * size + j
  }

  /** Division by `size` recovers the row and the column from a position. */
  lemma IdxDivMod(size: nat, i: nat, j: nat)
    requires i < size && j < size
    ensures Idx(size, i, j) / size == i && Idx(size, i, j) % size == j
  {
    DivModUnique(Idx(size, i, j), size, i, j);
  }

  /** Distinct cells never share a position, so each write hits its own cell. */
  lemma IdxInjective(size: nat, i: nat, j: nat, i': nat, j': nat)
    requires i < size && j < size && i' < size && j' < size
    requires Idx(size, i, j) == Idx(size, i', j')
    ensures i == i' && j == j'
  {
    IdxDivMod(size, i, j);
    IdxDivMod(size, i', j');
  }

  /** Every position of the buffer is the position of some cell. */
  lemma PositionIsCell(size: nat, p: nat)
    requires p < size * size
    ensures size > 0 && p / size < size && p % size < size
    ensures p == Idx(size, p / size, p % size)
  {
    if p / size >= size {
      MulMonotonic(size, p / size, size);
      assert false;
    }
  }

  /** A position lies inside the buffer exactly when its row does. */
  lemma RowOfPosition(size: nat, p: nat)
    requires size > 0
    ensures p / size < size <==> p < size * size
  {
    var q, r := p / size, p % size;
    if q < size {
      MulMonotonic(q + 1, size, size);
      assert p == q * size + r < (q + 1) * size;
    } else {
      MulMonotonic(size, q, size);
    }
  }

  /** Every other cell of the grid sits at another position of the buffer. */
  lemma OtherCellsElsewhere(size: nat, i: nat, j: nat)
    requires i < size && j < size
    ensures forall i': nat, j': nat :: i' < size && j' < size && (i' != i || j' != j) ==>
              Idx(size, i', j') < size * size && Idx(size, i', j') != Idx(size, i, j)
  {
    forall i': nat, j': nat | i' < size && j' < size && (i' != i || j' != j)
      ensures Idx(size, i', j') < size * size && Idx(size, i', j') != Idx(size, i, j)
    {
      if Idx(size, i', j') == Idx(size, i, j) {
        IdxInjective(size, i, j, i', j');
      }
    }
  }

  /** The entry at row i, column j of a flat matrix. */
  function Entry(m: seq<int>, size: nat, i: nat, j: nat): int
    requires |m| == size * size && i < size && j < size
  {
    m[Idx(size, i, j)]
  }

  /** The sum over k < n of A[i][k] * B[k][j], accumulated in the order the
      kernels' innermost loop adds the terms. */
  function Dot(a: seq<int>, b: seq<int>, size: nat, i: nat, j: nat, n: nat): int
    requires |a| == size * size && |b| == size * size
    requires i < size && j < size && n <= size
  {
    if n == 0 then 0
    else Dot(a, b, size, i, j, n - 1) + Entry(a, size, i, n - 1) * Entry(b, size, n - 1, j)
  }

  /** Entry (i, j) of the product A×B: the reduction spans the full `size`. */
  function Cell(a: seq<int>, b: seq<int>, size: nat, i: nat, j: nat): int
    requires |a| == size * size && |b| == size * size
    requires i < size && j < size
  {
    Dot(a, b, size, i, j, size)
  }

  /** Row i of a flat matrix. */
  function RowOf(m: seq<int>, size: nat, i: nat): seq<int>
    requires |m| == size * size && i < size
  {
    seq(size, k requires 0 <= k < size => Entry(m, size, i, k))
  }

  /** Column j of a flat matrix. */
  function ColumnOf(m: seq<int>, size: nat, j: nat): seq<int>
    requires |m| == size * size && j < size
  {
    seq(size, k requires 0 <= k < size => Entry(m, size, k, j))
  }

  /** Textbook inner product of two vectors of equal length. */
  function InnerProduct(u: seq<int>, v: seq<int>): int
    requires |u| == |v|
  {
    if |u| == 0 then 0
    else InnerProduct(u[..|u| - 1], v[..|v| - 1]) + u[|u| - 1] * v[|v| - 1]
  }

  /** The kernels' flat-index reduction is the inner product of the first n
      entries of row i of A and column j of B. */
  lemma {:induction false} DotIsInnerProduct(a: seq<int>, b: seq<int>, size: nat, i: nat, j: nat, n: nat)
    requires |a| == size * size && |b| == size * size
    requires i < size && j < size && n <= size
    ensures Dot(a, b, size, i, j, n) == InnerProduct(RowOf(a, size, i)[..n], ColumnOf(b, size, j)[..n])
  {
    if n > 0 {
      DotIsInnerProduct(a, b, size, i, j, n - 1);
      var u, v := RowOf(a, size, i)[..n], ColumnOf(b, size, j)[..n];
      assert u[..n - 1] == RowOf(a, size, i)[..n - 1];
      assert v[..n - 1] == ColumnOf(b, size, j)[..n - 1];
    }
  }

  /** Entry (i, j) of A×B is the inner product of row i of A and column j of B. */
  lemma CellIsInnerProduct(a: seq<int>, b: seq<int>, size: nat, i: nat, j: nat)
    requires |a| == size * size && |b| == size * size
    requires i < size && j < size
    ensures Cell(a, b, size, i, j) == InnerProduct(RowOf(a, size, i), ColumnOf(b, size, j))
  {
    DotIsInnerProduct(a, b, size, i, j, size);
    assert RowOf(a, size, i)[..size] == RowOf(a, size, i);
    assert ColumnOf(b, size, j)[..size] == ColumnOf(b, size, j);
  }

  /** Entry of A×B at buffer position p. */
  function ProductAt(a: seq<int>, b: seq<int>, size: nat, p: nat): int
    requires |a| == size * size && |b| == size * size && p < size * size
  {
    PositionIsCell(size, p);
    Cell(a, b, size, p / size, p % size)
  }

  /** The product A×B as a flat row-major buffer. */
  function Product(a: seq<int>, b: seq<int>, size: nat): seq<int>
    requires |a| == size * size && |b| == size * size
  {
    seq(size * size, p requires 0 <= p < size * size => ProductAt(a, b, size, p))
  }

  /** The product's buffer holds entry (i, j) of A×B at the position of (i, j). */
  lemma ProductCell(a: seq<int>, b: seq<int>, size: nat, i: nat, j: nat)
    requires |a| == size * size && |b| == size * size
    requires i < size && j < size
    ensures |Product(a, b, size)| == size * size
    ensures Product(a, b, size)[Idx(size, i, j)] == Cell(a, b, size, i, j)
  {
    IdxDivMod(size, i, j);
    var p := Idx(size, i, j);
    assert p / size == i && p % size == j;
    assert Product(a, b, size)[p] == ProductAt(a, b, size, p);
    assert ProductAt(a, b, size, p) == Cell(a, b, size, p / size, p % size);
  }

  /** A buffer that holds entry (i, j) of A×B at every cell's position is A×B. */
  lemma ProductFromCells(c: seq<int>, a: seq<int>, b: seq<int>, size: nat)
    requires |a| == size * size && |b| == size * size && |c| == size * size
    requires forall i: nat, j: nat :: i < size && j < size ==> c[Idx(size, i, j)] == Cell(a, b, size, i, j)
    ensures c == Product(a, b, size)
  {
    var m := Product(a, b, size);
    forall p | 0 <= p < size * size
      ensures c[p] == m[p]
    {
      PositionIsCell(size, p);
      var i, j := p / size, p % size;
      assert c[Idx(size, i, j)] == Cell(a, b, size, i, j);
    }
  }

  /** Three buffers of `size × size` entries; C is the only one written, so it
      must not share storage with A or B. */
  predicate Shape(size: nat, A: array<int>, B: array<int>, C: array<int>) {
    A.Length == size * size && B.Length == size * size && C.Length == size * size
    && C != A && C != B
  }

  /** The one-cell kernel every strategy runs: zero C[i][j], then add
      A[i][k] * B[k][j] for k = 0 .. size-1. Only that cell changes. */
  method ComputeCell(size: nat, A: array<int>, B: array<int>, C: array<int>, i: nat, j: nat)
    requires Shape(size, A, B, C) && i < size && j < size
    modifies C
    ensures C[Idx(size, i, j)] == Cell(A[..], B[..], size, i, j)
    ensures forall i': nat, j': nat :: i' < size && j' < size && (i' != i || j' != j) ==>
              C[Idx(size, i', j')] == old(C[Idx(size, i', j')])
  {
    var p := Idx(size, i, j);
    C[p] := 0;
    for k := 0 to size
      invariant C[p] == Dot(A[..], B[..], size, i, j, k)
      invariant forall q :: 0 <= q < C.Length && q != p ==> C[q] == old(C[q])
    {
      C[p] := C[p] + A[Idx(size, i, k)] * B[Idx(size, k, j)];
    }
    OtherCellsElsewhere(size, i, j);
  }

  /** `order` lists every unit 0 .. n-1 exactly once: a completion order. */
  predicate IsPermutation(order: seq<nat>, n: nat) {
    |order| == n
    && (forall t :: 0 <= t < |order| ==> order[t] < n)
    && (forall u :: 0 <= u < n ==> u in order)
  }
}
