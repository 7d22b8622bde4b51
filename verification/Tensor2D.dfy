/** Flat row-major matrices with constant-time transposed views. */
module Tensors {
  import opened Arithmetic
  import opened Sums

  datatype Result<T> = Ok(value: T) | Err(error: string)

  datatype Raw = Raw(rows: nat, cols: nat, data: seq<real>, transposed: bool)

  /** A tensor owns exactly one cell per index pair. */
  type Tensor2D = t: Raw | |t.data| == t.rows * t.cols witness Raw(0, 0, [], false)

  /** The flat place of row `r`, column `c` when rows are `width` long. */
  function Cell(r: nat, c: nat, width: nat): nat { r * width + c }

  lemma CellBelow(r: nat, c: nat, height: nat, width: nat)
    requires r < height && c < width
    ensures Cell(r, c, width) < height * width
  {
    Scale(r + 1, height, width);
    assert (r + 1) * width == r * width + width;
  }

  lemma CellAbove(r: nat, c: nat, height: nat, width: nat)
    requires height <= r
    ensures height * width <= Cell(r, c, width)
  {
    Scale(height, r, width);
  }

  lemma CellInjective(r: nat, c: nat, r': nat, c': nat, width: nat)
    requires c < width && c' < width && Cell(r, c, width) == Cell(r', c', width)
    ensures r == r' && c == c'
  {
    if r < r' { CellBelow(r, c, r', width); CellAbove(r', c', r', width); }
    if r' < r { CellBelow(r', c', r, width); CellAbove(r, c, r, width); }
  }

  /** Rows are stored one after the other, each from left to right. */
  lemma CellOrder(r: nat, c: nat, r': nat, c': nat, width: nat)
    requires c < width && c' < width
    ensures Cell(r, c, width) < Cell(r', c', width) <==> r < r' || (r == r' && c < c')
  {
    if r < r' { CellBelow(r, c, r', width); CellAbove(r', c', r', width); }
    if r' < r { CellBelow(r', c', r, width); CellAbove(r, c, r, width); }
  }

  /** `operator()`: the stored place depends on whether the tensor is a view. */
  function Read(t: Tensor2D, r: nat, c: nat): real
    requires r < t.rows && c < t.cols
  {
    CellBelow(r, c, t.rows, t.cols);
    CellBelow(c, r, t.cols, t.rows);
    if t.transposed then t.data[Cell(c, r, t.rows)] else t.data[Cell(r, c, t.cols)]
  }

  /** The matrix entry, zero outside the extents. */
  function Val(t: Tensor2D, r: nat, c: nat): real {
    if r < t.rows && c < t.cols then Read(t, r, c) else 0.0
  }

  /** The terms of entry (i, j) of the product. */
  function Terms(a: Tensor2D, b: Tensor2D, i: nat, j: nat): nat -> real {
    (k: nat) => Val(a, i, k) * Val(b, k, j)
  }

  /** The first `n` terms of entry (i, j) of the product. */
  function Dot(a: Tensor2D, b: Tensor2D, i: nat, j: nat, n: nat): real { Sum(Terms(a, b, i, j), n) }

  function Zeros(rows: nat, cols: nat): (t: Tensor2D)
    ensures t.rows == rows && t.cols == cols && !t.transposed
    ensures forall r: nat, c: nat :: Val(t, r, c) == 0.0
  {
    var t := Raw(rows, cols, seq(rows * cols, _ => 0.0), false);
    assert forall r: nat, c: nat :: Val(t, r, c) == 0.0 by {
      forall r: nat, c: nat | r < rows && c < cols ensures Read(t, r, c) == 0.0 {
        CellBelow(r, c, rows, cols);
      }
    }
    t
  }

  function Transpose(t: Tensor2D): (v: Tensor2D)
    ensures v.rows == t.cols && v.cols == t.rows
    ensures forall r: nat, c: nat :: Val(v, r, c) == Val(t, c, r)
  {
    Raw(t.cols, t.rows, t.data, !t.transposed)
  }

  lemma TransposeTwice(t: Tensor2D)
    ensures Transpose(Transpose(t)) == t
  {}

  // --------------------------------------------------------- checked accesses

  /** `at`: the bounds test swaps the extents for views. */
  predicate AtPasses(t: Tensor2D, r: nat, c: nat) {
    if t.transposed then c < t.rows && r < t.cols else r < t.rows && c < t.cols
  }

  predicate AtExact(t: Tensor2D) { !t.transposed || t.rows == t.cols || t.rows * t.cols == 0 }

  /** `at` admits exactly the index pairs of the matrix if and only if the tensor is not a
      view, is square, or is empty. */
  lemma AtIsExact(t: Tensor2D)
    ensures (forall r: nat, c: nat :: AtPasses(t, r, c) <==> r < t.rows && c < t.cols) <==> AtExact(t)
  {
    if t.transposed && t.rows != t.cols && t.rows * t.cols != 0 {
      var r, c := t.rows - 1, t.cols - 1;
      assert r < t.rows && c < t.cols;
      assert !AtPasses(t, r, c);
    }
    if t.rows * t.cols == 0 { ProductZero(t.rows, t.cols); }
  }

  lemma ProductZero(a: nat, b: nat)
    requires a * b == 0
    ensures a == 0 || b == 0
  {}
}
