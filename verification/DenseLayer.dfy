/** The fully connected layer and the exactness of its backward pass, over the reals. */
module DenseLayers {
  import opened Sums
  import opened Tensors
  import opened Matmul

  // -------------------------------------------------------------- cell updates

  /** Assignment through the reference `at` returns, on a plainly stored tensor. */
  function Write(t: Tensor2D, r: nat, c: nat, v: real): (u: Tensor2D)
    requires r < t.rows && c < t.cols && !t.transposed
    ensures u.rows == t.rows && u.cols == t.cols && !u.transposed
    ensures forall i: nat, j: nat :: Val(u, i, j) == if i == r && j == c then v else Val(t, i, j)
  {
    CellBelow(r, c, t.rows, t.cols);
    var u: Tensor2D := t.(data := t.data[Cell(r, c, t.cols) := v]);
    assert forall i: nat, j: nat :: Val(u, i, j) == if i == r && j == c then v else Val(t, i, j) by {
      forall i: nat, j: nat | i < t.rows && j < t.cols
        ensures Val(u, i, j) == if i == r && j == c then v else Val(t, i, j) {
        CellBelow(i, j, t.rows, t.cols);
        if Cell(i, j, t.cols) == Cell(r, c, t.cols) { CellInjective(i, j, r, c, t.cols); }
      }
    }
    u
  }

  /** The column sum of the first `n` rows. */
  function Column(g: Tensor2D, j: nat): nat -> real { (i: nat) => Val(g, i, j) }

  function ColumnSums(g: Tensor2D, j: nat, n: nat): real { Sum(Column(g, j), n) }

  // ------------------------------------------------------------- what is computed

  /** `y` is `x` times `w` with `b` added to every row. */
  ghost predicate Forwarded(y: Tensor2D, x: Tensor2D, w: Tensor2D, b: Tensor2D) {
    && y.rows == x.rows && y.cols == w.cols && !y.transposed
    && forall i: nat, j: nat :: i < y.rows && j < y.cols ==> Val(y, i, j) == Dot(x, w, i, j, x.cols) + Val(b, 0, j)
  }

  /** `after` is `before` plus the product of the transposed `x` and `g`. */
  ghost predicate WeightsGained(before: Tensor2D, after: Tensor2D, x: Tensor2D, g: Tensor2D) {
    && after.rows == before.rows && after.cols == before.cols && !after.transposed
    && forall k: nat, j: nat :: k < after.rows && j < after.cols ==>
         Val(after, k, j) == Val(before, k, j) + Dot(Transpose(x), g, k, j, x.rows)
  }

  /** `after` is `before` plus the column sums of `g`. */
  ghost predicate BiasGained(before: Tensor2D, after: Tensor2D, g: Tensor2D) {
    && after.rows == before.rows && after.cols == before.cols && !after.transposed
    && forall j: nat :: j < after.cols ==> Val(after, 0, j) == Val(before, 0, j) + ColumnSums(g, j, g.rows)
  }

  /** Every weight that the accumulation visits before an access fails gained its entry, no other changed. */
  ghost predicate WeightsTouched(before: Tensor2D, after: Tensor2D, x: Tensor2D, g: Tensor2D) {
    && after.rows == before.rows && after.cols == before.cols && !after.transposed
    && forall k: nat, j: nat :: k < after.rows && j < after.cols ==>
         Val(after, k, j) == Val(before, k, j)
           + if Reached(k, j, x.cols, g.cols, after.cols) then Dot(Transpose(x), g, k, j, x.rows) else 0.0
  }

  predicate AllTouched(w: Tensor2D, x: Tensor2D, g: Tensor2D) {
    w.rows == 0 || w.cols == 0 || (w.rows <= x.cols && w.cols <= g.cols)
  }

  ghost predicate BiasTouched(before: Tensor2D, after: Tensor2D, g: Tensor2D) {
    && after.rows == before.rows && after.cols == before.cols && !after.transposed
    && forall j: nat :: j < after.cols ==>
         Val(after, 0, j) == Val(before, 0, j) + ColumnSums(g, j, Added(g, after.cols, j))
  }

  // ---------------------------------------------------------------------- loops

  method AddBias(start: Tensor2D, bias: Tensor2D) returns (out: Tensor2D)
    requires !start.transposed && !bias.transposed && bias.rows == 1 && bias.cols == start.cols
    ensures out.rows == start.rows && out.cols == start.cols && !out.transposed
    ensures forall i: nat, j: nat :: i < out.rows && j < out.cols ==>
      Val(out, i, j) == Val(start, i, j) + Val(bias, 0, j)
  {
    hide Val;
    out := start;
    for i := 0 to start.rows
      invariant out.rows == start.rows && out.cols == start.cols && !out.transposed
      invariant forall r: nat, c: nat :: r < i && c < out.cols ==> Val(out, r, c) == Val(start, r, c) + Val(bias, 0, c)
      invariant forall r: nat, c: nat :: i <= r ==> Val(out, r, c) == Val(start, r, c)
    {
      for j := 0 to start.cols
        invariant out.rows == start.rows && out.cols == start.cols && !out.transposed
        invariant forall r: nat, c: nat :: r < i && c < out.cols ==>
          Val(out, r, c) == Val(start, r, c) + Val(bias, 0, c)
        invariant forall c: nat :: c < j ==> Val(out, i, c) == Val(start, i, c) + Val(bias, 0, c)
        invariant forall r: nat, c: nat :: i < r || (i == r && j <= c) ==> Val(out, r, c) == Val(start, r, c)
      {
        out := Write(out, i, j, Val(out, i, j) + Val(bias, 0, j));
      }
    }
  }

  /** In a row-major walk over rows of `cols` cells that stops at the first cell outside `height` by `width`:
      cell (r, c) is visited. */
  predicate Reached(r: nat, c: nat, height: nat, width: nat, cols: nat) {
    r < height && c < width && (r == 0 || cols <= width)
  }

  /** `d.at(i, j) += e.at(i, j)` for every cell of `d`, until an access fails. */
  method AddInto(start: Tensor2D, extra: Tensor2D) returns (out: Tensor2D, ok: bool)
    requires !start.transposed && !extra.transposed
    ensures out.rows == start.rows && out.cols == start.cols && !out.transposed
    ensures ok <==> start.rows == 0 || start.cols == 0 || (start.rows <= extra.rows && start.cols <= extra.cols)
    ensures forall i: nat, j: nat :: i < out.rows && j < out.cols ==>
      Val(out, i, j) == Val(start, i, j)
        + if Reached(i, j, extra.rows, extra.cols, start.cols) then Val(extra, i, j) else 0.0
  {
    hide Val;
    out := start;
    for i := 0 to start.rows
      invariant out.rows == start.rows && out.cols == start.cols && !out.transposed
      invariant i > 0 && start.cols > 0 ==> i <= extra.rows && start.cols <= extra.cols
      invariant forall r: nat, c: nat :: r < i && c < out.cols ==> Val(out, r, c) == Val(start, r, c) + Val(extra, r, c)
      invariant forall r: nat, c: nat :: i <= r ==> Val(out, r, c) == Val(start, r, c)
    {
      for j := 0 to start.cols
        invariant out.rows == start.rows && out.cols == start.cols && !out.transposed
        invariant j > 0 ==> i < extra.rows && j <= extra.cols
        invariant forall r: nat, c: nat :: r < i && c < out.cols ==>
          Val(out, r, c) == Val(start, r, c) + Val(extra, r, c)
        invariant forall c: nat :: c < j ==> Val(out, i, c) == Val(start, i, c) + Val(extra, i, c)
        invariant forall r: nat, c: nat :: i < r || (i == r && j <= c) ==> Val(out, r, c) == Val(start, r, c)
      {
        if !AtPasses(extra, i, j) { return out, false; }
        out := Write(out, i, j, Val(out, i, j) + Val(extra, i, j));
      }
    }
    ok := true;
  }

  lemma ColumnStep(g: Tensor2D, j: nat, i: nat)
    ensures ColumnSums(g, j, i + 1) == ColumnSums(g, j, i) + Val(g, i, j)
    ensures ColumnSums(g, j, 0) == 0.0
  {}

  /** The index pairs inside `g` that `at` serves are those below these two bounds. */
  function AtRows(g: Tensor2D): nat { if g.transposed && g.cols < g.rows then g.cols else g.rows }

  function AtCols(g: Tensor2D): nat { if g.transposed && g.rows < g.cols then g.rows else g.cols }

  lemma AtBounds(g: Tensor2D, i: nat, j: nat)
    requires i < g.rows && j < g.cols
    ensures AtPasses(g, i, j) <==> i < AtRows(g) && j < AtCols(g)
  {}

  /** How many columns of `g` the bias loop can serve in one row. */
  function Servable(g: Tensor2D, width: nat): nat { if width < AtCols(g) then width else AtCols(g) }

  /** How many entries of column `j` the bias loop adds before an access fails. */
  function Added(g: Tensor2D, width: nat, j: nat): nat {
    if Servable(g, width) <= j then 0
    else if g.cols <= Servable(g, width) then AtRows(g)
    else if AtRows(g) == 0 then 0 else 1
  }

  /** `d.at(0, j) += g.at(i, j)` for every entry of `g`, until an access fails. */
  method AddColumns(start: Tensor2D, g: Tensor2D) returns (out: Tensor2D, ok: bool)
    requires !start.transposed && start.rows == 1
    ensures out.rows == 1 && out.cols == start.cols && !out.transposed
    ensures ok <==> g.rows == 0 || g.cols == 0 || (g.cols <= start.cols && (!g.transposed || g.rows == g.cols))
    ensures forall c: nat :: c < out.cols ==>
      Val(out, 0, c) == Val(start, 0, c) + ColumnSums(g, c, Added(g, start.cols, c))
    ensures ok && g.cols == start.cols ==> BiasGained(start, out, g)
  {
    hide Val, ColumnSums;
    out := start;
    forall c: nat ensures ColumnSums(g, c, 0) == 0.0 { ColumnStep(g, c, 0); }
    for i := 0 to g.rows
      invariant out.rows == 1 && out.cols == start.cols && !out.transposed
      invariant i > 0 && g.cols > 0 ==> i <= AtRows(g) && g.cols <= Servable(g, start.cols)
      invariant forall c: nat :: c < out.cols && c < g.cols ==> Val(out, 0, c) == Val(start, 0, c) + ColumnSums(g, c, i)
      invariant forall c: nat :: g.cols <= c < out.cols ==> Val(out, 0, c) == Val(start, 0, c)
    {
      for j := 0 to g.cols
        invariant out.rows == 1 && out.cols == start.cols && !out.transposed
        invariant j > 0 ==> i < AtRows(g) && j <= Servable(g, start.cols)
        invariant forall c: nat :: c < j && c < out.cols ==>
          Val(out, 0, c) == Val(start, 0, c) + ColumnSums(g, c, i + 1)
        invariant forall c: nat :: j <= c < out.cols && c < g.cols ==>
          Val(out, 0, c) == Val(start, 0, c) + ColumnSums(g, c, i)
        invariant forall c: nat :: g.cols <= c < out.cols ==> Val(out, 0, c) == Val(start, 0, c)
      {
        AtBounds(g, i, j);
        if j >= out.cols || !AtPasses(g, i, j) { return out, false; }
        ColumnStep(g, j, i);
        out := Write(out, 0, j, Val(out, 0, j) + Val(g, i, j));
      }
    }
    ok := true;
  }

  // ---------------------------------------------------------------------- layer

  class DenseLayer {
    var weights: Tensor2D
    var bias: Tensor2D
    var inputCache: Tensor2D
    var dWeights: Tensor2D
    var dBias: Tensor2D

    /** Parameters and gradients are stored plainly and their shapes agree. */
    ghost predicate Valid()
      reads this
    {
      && !weights.transposed && !bias.transposed && !dWeights.transposed && !dBias.transposed
      && bias.rows == 1 && bias.cols == weights.cols
      && dWeights.rows == weights.rows && dWeights.cols == weights.cols
      && dBias.rows == 1 && dBias.cols == weights.cols
    }

    /** The random weights come from outside. */
    constructor (initial: Tensor2D)
      requires !initial.transposed
      ensures Valid() && weights == initial && inputCache == Zeros(0, 0)
      ensures bias == Zeros(1, initial.cols) && dBias == bias && dWeights == Zeros(initial.rows, initial.cols)
    {
      weights := initial;
      bias := Zeros(1, initial.cols);
      inputCache := Zeros(0, 0);
      dWeights := Zeros(initial.rows, initial.cols);
      dBias := Zeros(1, initial.cols);
    }

    method ZeroGradients()
      requires Valid()
      modifies this`dWeights, this`dBias
      ensures Valid()
      ensures forall i: nat, j: nat :: Val(dWeights, i, j) == 0.0 && Val(dBias, i, j) == 0.0
    {
      dWeights := Zeros(dWeights.rows, dWeights.cols);
      dBias := Zeros(dBias.rows, dBias.cols);
    }

    /** The input is cached even when the shapes do not match. */
    method Forward(input: Tensor2D) returns (r: Result<Tensor2D>)
      requires Valid()
      modifies this`inputCache
      ensures Valid() && inputCache == input
      ensures r.Ok? <==> input.cols == weights.rows
      ensures r.Ok? ==> Forwarded(r.value, input, weights, bias)
    {
      hide Dot, Val;
      inputCache := input;
      var product := Multiply(input, weights);
      if product.Err? { return product; }
      var out := AddBias(product.value, bias);
      r := Ok(out);
    }

    /** Adds to the gradients and returns the gradient of the input. It succeeds exactly when the incoming
        gradient has the rows of the cached input and the columns of the layer, the cached input is at least as
        wide as the layer (or the layer has no weight), and `at` is exact on the incoming gradient. On a
        failure the accesses made before it have taken effect. */
    method Backward(g: Tensor2D) returns (r: Result<Tensor2D>)
      requires Valid()
      modifies this`dWeights, this`dBias
      ensures Valid()
      ensures r.Ok? <==>
        && g.rows == inputCache.rows && g.cols == weights.cols
        && (weights.rows == 0 || weights.cols == 0 || weights.rows <= inputCache.cols)
        && AtExact(g)
      ensures r.Ok? ==> IsProduct(r.value, g, Transpose(weights))
                        && WeightsGained(old(dWeights), dWeights, inputCache, g)
                        && BiasGained(old(dBias), dBias, g)
      ensures g.rows != inputCache.rows ==> dWeights == old(dWeights) && dBias == old(dBias)
      ensures g.rows == inputCache.rows ==> WeightsTouched(old(dWeights), dWeights, inputCache, g)
      ensures g.rows == inputCache.rows ==>
        if AllTouched(dWeights, inputCache, g) then BiasTouched(old(dBias), dBias, g) else dBias == old(dBias)
    {
      hide Dot, Val, ColumnSums;
      var delta := Multiply(Transpose(inputCache), g);
      if delta.Err? { return delta; }
      var ok;
      dWeights, ok := AddInto(dWeights, delta.value);
      if !ok { return Err("Index out of range"); }
      dBias, ok := AddColumns(dBias, g);
      if !ok { return Err("Index out of range"); }
      r := Multiply(g, Transpose(weights));
    }
  }

  // -------------------------------------------------------------------- adjoint

  function Pair(a: Tensor2D, b: Tensor2D): (nat, nat) -> real {
    (i: nat, j: nat) => Val(a, i, j) * Val(b, i, j)
  }

  /** The sum of the entrywise product. */
  function Inner(a: Tensor2D, b: Tensor2D): real { Total(Pair(a, b), a.rows, a.cols) }

  function GainPair(p: Tensor2D, before: Tensor2D, after: Tensor2D): (nat, nat) -> real {
    (i: nat, j: nat) => Val(p, i, j) * (Val(after, i, j) - Val(before, i, j))
  }

  /** Parameters paired with what their accumulated gradient gained. */
  function Gain(p: Tensor2D, before: Tensor2D, after: Tensor2D): real {
    Total(GainPair(p, before, after), p.rows, p.cols)
  }

  /** The terms of the three-fold sum for input row `i`. */
  function Triple(x: Tensor2D, w: Tensor2D, g: Tensor2D, i: nat): (nat, nat) -> real {
    (j: nat, k: nat) => Val(x, i, k) * Val(w, k, j) * Val(g, i, j)
  }

  function RowLoss(x: Tensor2D, w: Tensor2D, g: Tensor2D): nat -> real {
    (i: nat) => Total(Triple(x, w, g, i), w.cols, x.cols)
  }

  function BiasPair(b: Tensor2D, g: Tensor2D): (nat, nat) -> real {
    (i: nat, j: nat) => Val(b, 0, j) * Val(g, i, j)
  }

  lemma Regroup(a: real, b: real, c: real)
    ensures a * b * c == c * (a * b) && a * b * c == a * (c * b) && a * b * c == b * (a * c)
  {}

  /** One output cell's share of the three-fold sum. */
  lemma {:induction false} OutputCell(x: Tensor2D, w: Tensor2D, g: Tensor2D, i: nat, j: nat, n: nat)
    ensures Across(Triple(x, w, g, i), n)(j) == Val(g, i, j) * Dot(x, w, i, j, n)
  {
    hide Val, Across;
    forall k: nat ensures Triple(x, w, g, i)(j, k) == Val(g, i, j) * Terms(x, w, i, j)(k) {
      Regroup(Val(x, i, k), Val(w, k, j), Val(g, i, j));
    }
    AcrossScale(Triple(x, w, g, i), n, j, Terms(x, w, i, j), Val(g, i, j));
  }

  lemma {:induction false} InputCell(x: Tensor2D, w: Tensor2D, g: Tensor2D, i: nat, k: nat, n: nat)
    ensures Across(Flipped(Triple(x, w, g, i)), n)(k) == Val(x, i, k) * Dot(g, Transpose(w), i, k, n)
  {
    hide Val, Across;
    forall j: nat ensures Flipped(Triple(x, w, g, i))(k, j) == Val(x, i, k) * Terms(g, Transpose(w), i, k)(j) {
      Regroup(Val(x, i, k), Val(w, k, j), Val(g, i, j));
    }
    AcrossScale(Flipped(Triple(x, w, g, i)), n, k, Terms(g, Transpose(w), i, k), Val(x, i, k));
  }

  lemma {:induction false} WeightCell(x: Tensor2D, w: Tensor2D, g: Tensor2D, k: nat, j: nat, n: nat)
    ensures Across(Outer(x, w, g, k), n)(j) == Val(w, k, j) * Dot(Transpose(x), g, k, j, n)
  {
    hide Val, Across;
    forall i: nat ensures Outer(x, w, g, k)(j, i) == Val(w, k, j) * Terms(Transpose(x), g, k, j)(i) {
      assert Terms(Transpose(x), g, k, j)(i) == Val(Transpose(x), k, i) * Val(g, i, j);
      assert Outer(x, w, g, k)(j, i) == Triple(x, w, g, i)(j, k);
      Regroup(Val(x, i, k), Val(w, k, j), Val(g, i, j));
    }
    AcrossScale(Outer(x, w, g, k), n, j, Terms(Transpose(x), g, k, j), Val(w, k, j));
  }

  /** Output side. */
  lemma OutputSide(y: Tensor2D, x: Tensor2D, w: Tensor2D, b: Tensor2D, g: Tensor2D)
    requires Forwarded(y, x, w, b)
    ensures Inner(y, g) == Sum(RowLoss(x, w, g), x.rows) + Total(BiasPair(b, g), x.rows, w.cols)
  {
    var whole, loss, extra := Across(Pair(y, g), y.cols), RowLoss(x, w, g), Across(BiasPair(b, g), w.cols);
    forall i: nat | i < x.rows ensures whole(i) == loss(i) + extra(i) {
      OutputRow(y, x, w, b, g, i);
    }
    SumPlus(loss, extra, whole, x.rows);
  }

  lemma Distributes(a: real, b: real, c: real)
    ensures (a + b) * c == c * a + b * c
  {}

  lemma {:induction false} OutputShare(y: Tensor2D, x: Tensor2D, w: Tensor2D, b: Tensor2D, g: Tensor2D, i: nat, j: nat)
    requires Forwarded(y, x, w, b) && i < x.rows && j < w.cols
    ensures Val(y, i, j) * Val(g, i, j) == Across(Triple(x, w, g, i), x.cols)(j) + Val(b, 0, j) * Val(g, i, j)
  {
    hide Across, Dot, Val;
    OutputCell(x, w, g, i, j, x.cols);
    Distributes(Dot(x, w, i, j, x.cols), Val(b, 0, j), Val(g, i, j));
  }

  lemma {:induction false} OutputRow(y: Tensor2D, x: Tensor2D, w: Tensor2D, b: Tensor2D, g: Tensor2D, i: nat)
    requires Forwarded(y, x, w, b) && i < x.rows
    ensures Across(Pair(y, g), y.cols)(i) == RowLoss(x, w, g)(i) + Across(BiasPair(b, g), w.cols)(i)
  {
    hide Across, Dot, Val;
    var whole := (j: nat) => Val(y, i, j) * Val(g, i, j);
    var loss := Across(Triple(x, w, g, i), x.cols);
    var extra := (j: nat) => Val(b, 0, j) * Val(g, i, j);
    forall j: nat | j < w.cols ensures whole(j) == loss(j) + extra(j) {
      OutputShare(y, x, w, b, g, i, j);
    }
    SumPlus(loss, extra, whole, w.cols);
    AcrossAt(Pair(y, g), y.cols, i, whole);
    AcrossAt(BiasPair(b, g), w.cols, i, extra);
  }

  /** Input side. */
  lemma InputSide(x: Tensor2D, w: Tensor2D, g: Tensor2D, dx: Tensor2D)
    requires g.rows == x.rows && g.cols == w.cols && x.cols == w.rows && IsProduct(dx, g, Transpose(w))
    ensures Inner(x, dx) == Sum(RowLoss(x, w, g), x.rows)
  {
    var whole, loss := Across(Pair(x, dx), x.cols), RowLoss(x, w, g);
    forall i: nat | i < x.rows ensures whole(i) == loss(i) { InputRow(x, w, g, dx, i); }
    SumSame(whole, loss, x.rows);
  }

  lemma {:induction false} InputRow(x: Tensor2D, w: Tensor2D, g: Tensor2D, dx: Tensor2D, i: nat)
    requires g.rows == x.rows && g.cols == w.cols && x.cols == w.rows && IsProduct(dx, g, Transpose(w)) && i < x.rows
    ensures Across(Pair(x, dx), x.cols)(i) == RowLoss(x, w, g)(i)
  {
    hide Across, Dot, Val;
    var t := Triple(x, w, g, i);
    TotalSwap(t, w.cols, x.cols);
    var loss := Across(Flipped(t), w.cols);
    forall k: nat | k < x.cols ensures loss(k) == Pair(x, dx)(i, k) {
      InputCell(x, w, g, i, k, w.cols);
    }
    AcrossAt(Pair(x, dx), x.cols, i, loss);
  }

  /** The three-fold sum seen from weight (k, ·): summed over outputs, by row. */
  function Middle(x: Tensor2D, w: Tensor2D, g: Tensor2D): (nat, nat) -> real {
    (k: nat, i: nat) => Across(Flipped(Triple(x, w, g, i)), w.cols)(k)
  }

  function Outer(x: Tensor2D, w: Tensor2D, g: Tensor2D, k: nat): (nat, nat) -> real {
    (j: nat, i: nat) => Triple(x, w, g, i)(j, k)
  }

  /** Weight side. */
  lemma WeightSide(x: Tensor2D, w: Tensor2D, g: Tensor2D, before: Tensor2D, after: Tensor2D)
    requires g.rows == x.rows && g.cols == w.cols && x.cols == w.rows
    requires WeightsGained(before, after, x, g) && before.rows == w.rows && before.cols == w.cols
    ensures Gain(w, before, after) == Sum(RowLoss(x, w, g), x.rows)
  {
    var m := Middle(x, w, g);
    forall k: nat | k < w.rows ensures Across(GainPair(w, before, after), w.cols)(k) == Across(m, x.rows)(k) {
      WeightRow(x, w, g, before, after, k);
    }
    SumSame(Across(GainPair(w, before, after), w.cols), Across(m, x.rows), w.rows);
    TotalSwap(m, w.rows, x.rows);
    forall i: nat | i < x.rows ensures Across(Flipped(m), w.rows)(i) == RowLoss(x, w, g)(i) {
      MiddleRow(x, w, g, i);
    }
    SumSame(Across(Flipped(m), w.rows), RowLoss(x, w, g), x.rows);
  }

  lemma {:induction false} MiddleRow(x: Tensor2D, w: Tensor2D, g: Tensor2D, i: nat)
    requires x.cols == w.rows
    ensures Across(Flipped(Middle(x, w, g)), w.rows)(i) == RowLoss(x, w, g)(i)
  {
    hide Across, Triple;
    TotalSwap(Triple(x, w, g, i), w.cols, x.cols);
    AcrossAt(Flipped(Middle(x, w, g)), w.rows, i, Across(Flipped(Triple(x, w, g, i)), w.cols));
  }

  lemma {:induction false} WeightRow(x: Tensor2D, w: Tensor2D, g: Tensor2D, before: Tensor2D, after: Tensor2D, k: nat)
    requires g.rows == x.rows && g.cols == w.cols && x.cols == w.rows && k < w.rows
    requires WeightsGained(before, after, x, g) && before.rows == w.rows && before.cols == w.cols
    ensures Across(GainPair(w, before, after), w.cols)(k) == Across(Middle(x, w, g), x.rows)(k)
  {
    hide Across, Dot, Val;
    var o := Outer(x, w, g, k);
    var byCell := Across(o, x.rows);
    forall j: nat | j < w.cols ensures byCell(j) == GainPair(w, before, after)(k, j) {
      WeightCell(x, w, g, k, j, x.rows);
    }
    AcrossAt(GainPair(w, before, after), w.cols, k, byCell);
    TotalSwap(o, w.cols, x.rows);
    var byRow := Across(Flipped(o), w.cols);
    forall i: nat | i < x.rows ensures byRow(i) == Middle(x, w, g)(k, i) {
      SameRows(x, w, g, k, i);
    }
    AcrossAt(Middle(x, w, g), x.rows, k, byRow);
  }

  lemma {:induction false} SameRows(x: Tensor2D, w: Tensor2D, g: Tensor2D, k: nat, i: nat)
    ensures Across(Flipped(Outer(x, w, g, k)), w.cols)(i) == Across(Flipped(Triple(x, w, g, i)), w.cols)(k)
  {
    hide Across, Val;
    var row := (j: nat) => Triple(x, w, g, i)(j, k);
    AcrossAt(Flipped(Outer(x, w, g, k)), w.cols, i, row);
    AcrossAt(Flipped(Triple(x, w, g, i)), w.cols, k, row);
  }

  /** Bias side. */
  lemma {:induction false} BiasSide(b: Tensor2D, g: Tensor2D, before: Tensor2D, after: Tensor2D)
    requires b.rows == 1 && b.cols == g.cols && before.cols == b.cols && before.rows == 1
    requires BiasGained(before, after, g)
    ensures Gain(b, before, after) == Total(BiasPair(b, g), g.rows, g.cols)
  {
    hide Across, Val;
    var p := BiasPair(b, g);
    TotalSwap(p, g.rows, g.cols);
    var gain, sums := GainPair(b, before, after), Across(Flipped(p), g.rows);
    forall j: nat | j < b.cols ensures sums(j) == gain(0, j) {
      AcrossScale(Flipped(p), g.rows, j, Column(g, j), Val(b, 0, j));
    }
    AcrossAt(gain, b.cols, 0, sums);
    OneRow(gain, b.cols);
  }

  lemma OneRow(f: (nat, nat) -> real, m: nat)
    ensures Total(f, 1, m) == Across(f, m)(0)
  {
    assert Sum(Across(f, m), 1) == Sum(Across(f, m), 0) + Across(f, m)(0);
  }

  /** The backward pass is the exact adjoint of the forward pass: the output paired with any
      incoming gradient, less the bias share, is the input paired with the returned gradient
      and also the weights paired with what their gradient gained. */
  lemma {:induction false} BackwardIsAdjoint(y: Tensor2D, x: Tensor2D, w: Tensor2D, b: Tensor2D,
                          g: Tensor2D, dx: Tensor2D,
                          dw: Tensor2D, dw': Tensor2D, db: Tensor2D, db': Tensor2D)
    requires x.cols == w.rows && g.rows == x.rows && g.cols == w.cols && b.rows == 1 && b.cols == w.cols
    requires dw.rows == w.rows && dw.cols == w.cols && db.rows == 1 && db.cols == w.cols
    requires Forwarded(y, x, w, b)
    requires IsProduct(dx, g, Transpose(w)) && WeightsGained(dw, dw', x, g) && BiasGained(db, db', g)
    ensures Inner(y, g) - Gain(b, db, db') == Inner(x, dx) == Gain(w, dw, dw')
  {
    hide Forwarded, IsProduct, WeightsGained, BiasGained, Inner, Gain, Total, Sum, RowLoss, BiasPair, Transpose;
    OutputSide(y, x, w, b, g);
    InputSide(x, w, g, dx);
    WeightSide(x, w, g, dw, dw');
    BiasSide(b, g, db, db');
  }

  /** Hence the gradients predict exactly how the paired output changes when the parameters
      move from (w, b) to (v, c), by any amount. */
  lemma {:induction false} GradientPredicts(x: Tensor2D, g: Tensor2D, w: Tensor2D, b: Tensor2D, y: Tensor2D,
                         v: Tensor2D, c: Tensor2D, z: Tensor2D,
                         dw: Tensor2D, dw': Tensor2D, db: Tensor2D, db': Tensor2D)
    requires x.cols == w.rows && g.rows == x.rows && g.cols == w.cols && b.rows == 1 && b.cols == w.cols
    requires v.rows == w.rows && v.cols == w.cols && c.rows == 1 && c.cols == w.cols
    requires dw.rows == w.rows && dw.cols == w.cols && db.rows == 1 && db.cols == w.cols
    requires Forwarded(y, x, w, b) && Forwarded(z, x, v, c)
    requires WeightsGained(dw, dw', x, g) && BiasGained(db, db', g)
    ensures Inner(z, g) - Inner(y, g)
         == (Gain(v, dw, dw') - Gain(w, dw, dw')) + (Gain(c, db, db') - Gain(b, db, db'))
  {
    hide Forwarded, IsProduct, WeightsGained, BiasGained, Inner, Gain, Total, Sum, RowLoss, BiasPair, Transpose;
    OutputSide(y, x, w, b, g);
    OutputSide(z, x, v, c, g);
    WeightSide(x, w, g, dw, dw');
    WeightSide(x, v, g, dw, dw');
    BiasSide(b, g, db, db');
    BiasSide(c, g, db, db');
  }
}
