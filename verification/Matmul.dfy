/** The three storage cases of the matrix product. */
module Matmul {
  import opened Sums
  import opened Tensors

  /** `r` is the matrix product of `a` and `b`, stored plainly. */
  ghost predicate IsProduct(r: Tensor2D, a: Tensor2D, b: Tensor2D) {
    && r.rows == a.rows && r.cols == b.cols && !r.transposed
    && forall i: nat, j: nat :: i < a.rows && j < b.cols ==> Val(r, i, j) == Dot(a, b, i, j, a.cols)
  }

  /** Row `i` of the buffer holds the first `k` terms of each product entry. */
  ghost predicate RowHolds(data: seq<real>, a: Tensor2D, b: Tensor2D, i: nat, k: nat)
    requires i < a.rows && |data| == a.rows * b.cols
  {
    forall c: nat :: c < b.cols ==> RowCell(data, a, b, i, c) == Dot(a, b, i, c, k)
  }

  function RowCell(data: seq<real>, a: Tensor2D, b: Tensor2D, i: nat, c: nat): real
    requires i < a.rows && c < b.cols && |data| == a.rows * b.cols
  {
    CellBelow(i, c, a.rows, b.cols);
    data[Cell(i, c, b.cols)]
  }

  /** Rows before `i` are finished, rows from `i` on are still zero. */
  ghost predicate Halfway(data: seq<real>, a: Tensor2D, b: Tensor2D, i: nat) {
    && |data| == a.rows * b.cols
    && (forall r: nat :: r < i && r < a.rows ==> RowHolds(data, a, b, r, a.cols))
    && (forall r: nat :: i <= r < a.rows ==> RowHolds(data, a, b, r, 0))
  }

  /** Two buffers agree outside row `i`. */
  ghost predicate SameBut(old_: seq<real>, now: seq<real>, i: nat, width: nat) {
    |now| == |old_| && forall p: nat :: p < |now| && (p < i * width || i * width + width <= p) ==> now[p] == old_[p]
  }

  lemma {:induction false} OtherRowKept(old_: seq<real>, now: seq<real>, a: Tensor2D, b: Tensor2D, i: nat, r: nat,
                                        k: nat)
    requires i < a.rows && r < a.rows && r != i && |old_| == a.rows * b.cols
    requires SameBut(old_, now, i, b.cols) && RowHolds(old_, a, b, r, k)
    ensures RowHolds(now, a, b, r, k)
  {
    hide Dot;
    forall c: nat | c < b.cols ensures RowCell(now, a, b, r, c) == RowCell(old_, a, b, r, c) {
      CellBelow(r, c, a.rows, b.cols);
      if r < i { CellBelow(r, c, i, b.cols); } else { CellAbove(r, c, i + 1, b.cols); NextRow(i, b.cols); }
    }
  }

  lemma NextRow(i: nat, width: nat)
    ensures (i + 1) * width == i * width + width
  {}

  lemma {:induction false} RowFinished(old_: seq<real>, now: seq<real>, a: Tensor2D, b: Tensor2D, i: nat)
    requires i < a.rows && Halfway(old_, a, b, i)
    requires SameBut(old_, now, i, b.cols) && RowHolds(now, a, b, i, a.cols)
    ensures Halfway(now, a, b, i + 1)
  {
    hide RowHolds, SameBut;
    assert |now| == |old_| by { SameButSize(old_, now, i, b.cols); }
    forall r: nat | r < i + 1 && r < a.rows ensures RowHolds(now, a, b, r, a.cols) {
      if r != i { OtherRowKept(old_, now, a, b, i, r, a.cols); }
    }
    forall r: nat | i + 1 <= r < a.rows ensures RowHolds(now, a, b, r, 0) {
      OtherRowKept(old_, now, a, b, i, r, 0);
    }
  }

  lemma SameButSize(old_: seq<real>, now: seq<real>, i: nat, width: nat)
    requires SameBut(old_, now, i, width)
    ensures |now| == |old_|
  {}

  lemma HalfwayStart(a: Tensor2D, b: Tensor2D)
    ensures Halfway(Zeros(a.rows, b.cols).data, a, b, 0)
  {
    var z := Zeros(a.rows, b.cols);
    forall r: nat | r < a.rows ensures RowHolds(z.data, a, b, r, 0) {
      forall c: nat | c < b.cols ensures RowCell(z.data, a, b, r, c) == 0.0 {
        assert Val(z, r, c) == 0.0;
      }
    }
  }

  lemma {:induction false} HalfwayDone(data: seq<real>, a: Tensor2D, b: Tensor2D)
    requires Halfway(data, a, b, a.rows)
    ensures IsProduct(Raw(a.rows, b.cols, data, false), a, b)
  {
    hide Dot;
    var r: Tensor2D := Raw(a.rows, b.cols, data, false);
    forall i: nat, j: nat | i < a.rows && j < b.cols ensures Val(r, i, j) == Dot(a, b, i, j, a.cols) {
      assert RowHolds(data, a, b, i, a.cols);
      assert Val(r, i, j) == RowCell(data, a, b, i, j);
    }
  }

  /** Row `i` after adding the terms `k` to its first `j` cells. */
  ghost predicate RowPartly(data: seq<real>, a: Tensor2D, b: Tensor2D, i: nat, k: nat, j: nat)
    requires i < a.rows && |data| == a.rows * b.cols
  {
    && (forall c: nat :: c < b.cols && c < j ==> RowCell(data, a, b, i, c) == Dot(a, b, i, c, k + 1))
    && (forall c: nat :: j <= c < b.cols ==> RowCell(data, a, b, i, c) == Dot(a, b, i, c, k))
  }

  /** Adding term `k` to cell `j` of row `i`. */
  lemma {:induction false} CellAdded(old_: seq<real>, now: seq<real>, a: Tensor2D, b: Tensor2D, i: nat, k: nat, j: nat)
    requires i < a.rows && j < b.cols && |old_| == a.rows * b.cols && Cell(i, j, b.cols) < |old_|
    requires RowPartly(old_, a, b, i, k, j)
    requires now == old_[Cell(i, j, b.cols) := old_[Cell(i, j, b.cols)] + Val(a, i, k) * Val(b, k, j)]
    ensures RowPartly(now, a, b, i, k, j + 1) && SameBut(old_, now, i, b.cols)
  {
    assert RowCell(old_, a, b, i, j) == Dot(a, b, i, j, k);
    DotStep(a, b, i, j, k);
    hide Dot, Val;
    forall c: nat | c < b.cols && c != j ensures RowCell(now, a, b, i, c) == RowCell(old_, a, b, i, c) {
      CellBelow(i, c, a.rows, b.cols);
    }
  }

  lemma DotStep(a: Tensor2D, b: Tensor2D, i: nat, j: nat, k: nat)
    ensures Dot(a, b, i, j, k + 1) == Dot(a, b, i, j, k) + Val(a, i, k) * Val(b, k, j)
  {}

  lemma SameButChains(s: seq<real>, t: seq<real>, u: seq<real>, i: nat, width: nat)
    requires SameBut(s, t, i, width) && SameBut(t, u, i, width)
    ensures SameBut(s, u, i, width)
  {}

  lemma {:induction false} RowStarts(data: seq<real>, a: Tensor2D, b: Tensor2D, i: nat, k: nat)
    requires i < a.rows && |data| == a.rows * b.cols
    ensures RowHolds(data, a, b, i, k) <==> RowPartly(data, a, b, i, k, 0)
    ensures RowHolds(data, a, b, i, k + 1) <==> RowPartly(data, a, b, i, k, b.cols)
  {
    hide Dot;
  }

  // ------------------------------------------------------------ the three cases

  /** Case 1, one row: both operands stored plainly, raw indexing. */
  method PlainRow(start: seq<real>, a: Tensor2D, b: Tensor2D, i: nat) returns (data: seq<real>)
    requires !a.transposed && !b.transposed && a.cols == b.rows && i < a.rows && |start| == a.rows * b.cols
    requires RowHolds(start, a, b, i, 0)
    ensures SameBut(start, data, i, b.cols) && RowHolds(data, a, b, i, a.cols)
  {
    hide RowHolds, RowPartly, Dot, SameBut, RowCell, Cell;
    data := start;
    SameButSelf(data, i, b.cols);
    for k := 0 to a.cols
      invariant |data| == |start| && SameBut(start, data, i, b.cols) && RowHolds(data, a, b, i, k)
    {
      CellBelow(i, k, a.rows, a.cols);
      var av := a.data[Cell(i, k, a.cols)];
      assert av == Val(a, i, k);
      RowStarts(data, a, b, i, k);
      for j := 0 to b.cols
        invariant |data| == |start| && SameBut(start, data, i, b.cols) && RowPartly(data, a, b, i, k, j)
      {
        CellBelow(i, j, a.rows, b.cols);
        CellBelow(k, j, b.rows, b.cols);
        ghost var was := data;
        var term := av * b.data[Cell(k, j, b.cols)];
        assert term == Val(a, i, k) * Val(b, k, j);
        data := data[Cell(i, j, b.cols) := data[Cell(i, j, b.cols)] + term];
        CellAdded(was, data, a, b, i, k, j);
        SameButChains(start, was, data, i, b.cols);
      }
      RowStarts(data, a, b, i, k);
    }
  }

  lemma SameButSelf(s: seq<real>, i: nat, width: nat)
    ensures SameBut(s, s, i, width)
  {}

  /** Case 2, one row: the right operand is a view, so its columns are contiguous. */
  method RowTimesView(start: seq<real>, a: Tensor2D, b: Tensor2D, i: nat) returns (data: seq<real>)
    requires !a.transposed && b.transposed && a.cols == b.rows && i < a.rows && |start| == a.rows * b.cols
    ensures SameBut(start, data, i, b.cols) && RowHolds(data, a, b, i, a.cols)
  {
    hide Dot, SameBut, Cell;
    data := start;
    SameButSelf(data, i, b.cols);
    for j := 0 to b.cols
      invariant |data| == |start| && SameBut(start, data, i, b.cols)
      invariant forall c: nat :: c < j ==> RowCell(data, a, b, i, c) == Dot(a, b, i, c, a.cols)
    {
      var sum := ColumnSum(a, b, i, j);
      CellBelow(i, j, a.rows, b.cols);
      ghost var was := data;
      data := data[Cell(i, j, b.cols) := sum];
      CellSet(was, data, a, b, i, j);
      SameButChains(start, was, data, i, b.cols);
    }
  }

  method ColumnSum(a: Tensor2D, b: Tensor2D, i: nat, j: nat) returns (sum: real)
    requires !a.transposed && b.transposed && a.cols == b.rows && i < a.rows && j < b.cols
    ensures sum == Dot(a, b, i, j, a.cols)
  {
    hide Dot;
    sum := 0.0;
    DotNothing(a, b, i, j);
    for k := 0 to a.cols
      invariant sum == Dot(a, b, i, j, k)
    {
      CellBelow(i, k, a.rows, a.cols);
      CellBelow(j, k, b.cols, b.rows);
      sum := sum + a.data[Cell(i, k, a.cols)] * b.data[Cell(j, k, b.rows)];
      DotStep(a, b, i, j, k);
    }
  }

  lemma DotNothing(a: Tensor2D, b: Tensor2D, i: nat, j: nat)
    ensures Dot(a, b, i, j, 0) == 0.0
  {}

  lemma CellSet(old_: seq<real>, now: seq<real>, a: Tensor2D, b: Tensor2D, i: nat, j: nat)
    requires i < a.rows && j < b.cols && |old_| == a.rows * b.cols && |now| == |old_| && Cell(i, j, b.cols) < |old_|
    requires now == old_[Cell(i, j, b.cols) := now[Cell(i, j, b.cols)]]
    ensures SameBut(old_, now, i, b.cols) && RowCell(now, a, b, i, j) == now[Cell(i, j, b.cols)]
    ensures forall c: nat :: c < b.cols && c != j ==> RowCell(now, a, b, i, c) == RowCell(old_, a, b, i, c)
  {
    forall c: nat | c < b.cols && c != j ensures RowCell(now, a, b, i, c) == RowCell(old_, a, b, i, c) {
      CellBelow(i, c, a.rows, b.cols);
    }
  }

  /** Case 3, one row: the left operand is a view, every access through `operator()`. */
  method ViewRow(start: seq<real>, a: Tensor2D, b: Tensor2D, i: nat) returns (data: seq<real>)
    requires a.cols == b.rows && i < a.rows && |start| == a.rows * b.cols
    requires RowHolds(start, a, b, i, 0)
    ensures SameBut(start, data, i, b.cols) && RowHolds(data, a, b, i, a.cols)
  {
    hide RowHolds, RowPartly, Dot, SameBut, RowCell, Cell;
    data := start;
    SameButSelf(data, i, b.cols);
    for k := 0 to a.cols
      invariant |data| == |start| && SameBut(start, data, i, b.cols) && RowHolds(data, a, b, i, k)
    {
      var av := Read(a, i, k);
      assert av == Val(a, i, k);
      RowStarts(data, a, b, i, k);
      for j := 0 to b.cols
        invariant |data| == |start| && SameBut(start, data, i, b.cols) && RowPartly(data, a, b, i, k, j)
      {
        CellBelow(i, j, a.rows, b.cols);
        ghost var was := data;
        var term := av * Read(b, k, j);
        assert term == Val(a, i, k) * Val(b, k, j);
        data := data[Cell(i, j, b.cols) := data[Cell(i, j, b.cols)] + term];
        CellAdded(was, data, a, b, i, k, j);
        SameButChains(start, was, data, i, b.cols);
      }
      RowStarts(data, a, b, i, k);
    }
  }

  /** `matmul` is the product of the matrices its operands show, in any mix of views. */
  method Multiply(a: Tensor2D, b: Tensor2D) returns (r: Result<Tensor2D>)
    ensures r.Ok? <==> a.cols == b.rows
    ensures r.Ok? ==> IsProduct(r.value, a, b)
  {
    hide Halfway, IsProduct, RowHolds, SameBut, Dot;
    if a.cols != b.rows { return Err("Matrix dimensions do not match for multiplication."); }
    var data := Zeros(a.rows, b.cols).data;
    HalfwayStart(a, b);
    HalfwaySize(data, a, b, 0);
    for i := 0 to a.rows
      invariant |data| == a.rows * b.cols && Halfway(data, a, b, i)
    {
      ghost var was := data;
      HalfwayZero(data, a, b, i);
      if !a.transposed && !b.transposed {
        data := PlainRow(data, a, b, i);
      } else if !a.transposed && b.transposed {
        data := RowTimesView(data, a, b, i);
      } else {
        data := ViewRow(data, a, b, i);
      }
      RowFinished(was, data, a, b, i);
      HalfwaySize(data, a, b, i + 1);
    }
    HalfwayDone(data, a, b);
    r := Ok(Raw(a.rows, b.cols, data, false));
  }

  lemma HalfwaySize(data: seq<real>, a: Tensor2D, b: Tensor2D, i: nat)
    requires Halfway(data, a, b, i)
    ensures |data| == a.rows * b.cols
  {}

  lemma HalfwayZero(data: seq<real>, a: Tensor2D, b: Tensor2D, i: nat)
    requires Halfway(data, a, b, i) && i < a.rows
    ensures RowHolds(data, a, b, i, 0)
  {}

  /** A product with a matrix that is one at (p, q) and zero elsewhere: column `q` is column `p` of the left
      factor, all other columns are zero. */
  lemma {:induction false} UnitProduct(r: Tensor2D, a: Tensor2D, b: Tensor2D, p: nat, q: nat)
    requires IsProduct(r, a, b) && p < a.cols == b.rows && q < b.cols
    requires forall k: nat, l: nat :: k < b.rows && l < b.cols ==> Val(b, k, l) == if k == p && l == q then 1.0 else 0.0
    ensures forall i: nat, j: nat :: i < a.rows && j < b.cols ==> Val(r, i, j) == if j == q then Val(a, i, p) else 0.0
  {
    hide Val, Sum;
    forall i: nat, j: nat | i < a.rows && j < b.cols
      ensures Val(r, i, j) == if j == q then Val(a, i, p) else 0.0
    {
      assert Val(r, i, j) == Dot(a, b, i, j, a.cols);
      var f := Terms(a, b, i, j);
      forall k: nat | k < a.cols ensures f(k) == if k == p && j == q then Val(a, i, p) else 0.0 {
        assert Val(b, k, j) == if k == p && j == q then 1.0 else 0.0;
      }
      SumOne(f, a.cols, p);
    }
  }
}
