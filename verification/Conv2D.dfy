/** The convolution layer's forward pass, with its machine arithmetic. */
module Conv2D {
  import opened Arithmetic
  import opened Sums
  import opened Tensors4

  // ------------------------------------------------------------ machine integers

  const TWO_63: int := 0x8000_0000_0000_0000
  const TWO_64: int := 0x1_0000_0000_0000_0000

  /** Arithmetic of the unsigned 64-bit type. */
  function Unsigned(x: int): nat { x % TWO_64 }

  /** The cast to the signed 64-bit type. */
  function Signed(x: nat): int { if x < TWO_63 then x else x - TWO_64 }

  /** Wrapping and casting back is exact precisely for the values a signed word holds. */
  lemma SignedExact(v: int)
    ensures Signed(Unsigned(v)) == v <==> -0x8000_0000_0000_0000 <= v < 0x8000_0000_0000_0000
  {}

  lemma UnsignedAdds(x: int, y: int)
    ensures Unsigned(Unsigned(x) + y) == Unsigned(x + y)
  {}

  /** The coordinate the loop computes, from a window origin that may wrap below zero. */
  function Coordinate(o: nat, stride: nat, padding: nat, k: nat): int {
    Signed(Unsigned(Unsigned(Unsigned(o * stride) - padding) + k))
  }

  lemma {:induction false} CoordinateExact(o: nat, stride: nat, padding: nat, k: nat)
    ensures Coordinate(o, stride, padding, k) == o * stride + k - padding
            <==> -0x8000_0000_0000_0000 <= o * stride + k - padding < 0x8000_0000_0000_0000
  {
    var x := o * stride;
    hide Unsigned, Signed;
    UnsignedAdds(x, 0 - padding);
    UnsignedAdds(x - padding, k);
    SignedExact(x + k - padding);
  }

  function OutSize(size: nat, padding: nat, kernel: nat, stride: nat): nat
    requires stride > 0
  {
    Unsigned(size + 2 * padding - kernel) / stride + 1
  }

  /** The last window still ends inside the padded extent. */
  lemma WindowFits(o: nat, size: nat, padding: nat, kernel: nat, stride: nat)
    requires stride > 0 && kernel <= size + 2 * padding < TWO_64 && o < OutSize(size, padding, kernel, stride)
    ensures o * stride + kernel <= size + 2 * padding
  {
    var room := size + 2 * padding - kernel;
    assert Unsigned(room) == room;
    Fits(o, room, stride);
  }

  lemma Fits(o: nat, room: nat, stride: nat)
    requires stride > 0 && o <= room / stride
    ensures o * stride <= room
  {
    var q := room / stride;
    assert room == q * stride + room % stride;
    Scale(o, q, stride);
  }

  /** One more window would not fit: the output is as large as possible. */
  lemma NoMoreWindows(size: nat, padding: nat, kernel: nat, stride: nat)
    requires stride > 0 && kernel <= size + 2 * padding < TWO_64
    ensures OutSize(size, padding, kernel, stride) * stride + kernel > size + 2 * padding
  {
    var room := size + 2 * padding - kernel;
    assert Unsigned(room) == room;
    var q := room / stride;
    assert room == q * stride + room % stride;
    assert (q + 1) * stride == q * stride + stride;
  }

  // ----------------------------------------------------- convolution of the padded input

  datatype Shape = Shape(inChannels: nat, outChannels: nat, kernel: nat, stride: nat, padding: nat)

  /** The input with `padding` zeros around each plane. */
  ghost function Padded(x: Tensor4D, padding: nat, b: nat, c: nat, row: nat, col: nat): real {
    if padding <= row && padding <= col then Val4(x, b, c, row - padding, col - padding) else 0.0
  }

  /** The products under the window at (oh, ow) in channel `ic`. */
  ghost function Window(s: Shape, x: Tensor4D, weights: Tensor4D, b: nat, oc: nat, oh: nat, ow: nat,
                        ic: nat): (nat, nat) -> real {
    (kh: nat, kw: nat) =>
      Padded(x, s.padding, b, ic, oh * s.stride + kh, ow * s.stride + kw) * Val4(weights, oc, ic, kh, kw)
  }

  ghost function Channels(s: Shape, x: Tensor4D, weights: Tensor4D, b: nat, oc: nat, oh: nat, ow: nat): nat -> real {
    (ic: nat) => Total(Window(s, x, weights, b, oc, oh, ow, ic), s.kernel, s.kernel)
  }

  ghost function Convolution(s: Shape, x: Tensor4D, weights: Tensor4D, bias: Tensor4D, b: nat, oc: nat, oh: nat,
                             ow: nat): real {
    Sum(Channels(s, x, weights, b, oc, oh, ow), s.inChannels) + Val4(bias, 0, oc, 0, 0)
  }

  // ---------------------------------------------------------------------- the loops

  /** What the layer demands of its input. */
  ghost predicate Accepts(s: Shape, x: Tensor4D) {
    && s.stride > 0 && s.inChannels <= x.channels
    && Representable(x.height, s.padding, s.kernel) && Representable(x.width, s.padding, s.kernel)
  }

  /** One window fits, the padded extent is an unsigned word, and the extent and every coordinate under a
      window are signed words. */
  predicate Representable(size: nat, padding: nat, kernel: nat) {
    && kernel <= size + 2 * padding < TWO_64
    && size < TWO_63 && padding <= TWO_63 && size + padding <= TWO_63
  }

  /** No window position leaves the signed range, so every coordinate the loops compute is the true one. */
  lemma {:induction false} CoordinatesExact(o: nat, size: nat, stride: nat, padding: nat, kernel: nat, k: nat)
    requires Representable(size, padding, kernel) && o * stride + kernel <= size + 2 * padding && k < kernel
    ensures Coordinate(o, stride, padding, k) == o * stride + k - padding && Signed(size) == size
  {
    hide Coordinate;
    CoordinateExact(o, stride, padding, k);
  }

  ghost predicate Parameters(s: Shape, weights: Tensor4D, bias: Tensor4D) {
    && weights.batch == s.outChannels && weights.channels == s.inChannels
    && weights.height == s.kernel && weights.width == s.kernel
    && bias.batch == 1 && bias.channels == s.outChannels && bias.height == 1 && bias.width == 1
  }

  ghost predicate Cursor(s: Shape, x: Tensor4D, b: nat, oc: nat, oh: nat, ow: nat) {
    && b < x.batch && oc < s.outChannels
    && oh * s.stride + s.kernel <= x.height + 2 * s.padding
    && ow * s.stride + s.kernel <= x.width + 2 * s.padding
  }

  /** One term: the guard admits exactly the unpadded cells. */
  method Term(s: Shape, x: Tensor4D, weights: Tensor4D, bias: Tensor4D, b: nat, oc: nat, oh: nat, ow: nat, ic: nat,
              kh: nat, kw: nat)
    returns (v: real)
    requires Accepts(s, x) && Parameters(s, weights, bias) && Cursor(s, x, b, oc, oh, ow)
    requires ic < s.inChannels && kh < s.kernel && kw < s.kernel
    ensures v == Window(s, x, weights, b, oc, oh, ow, ic)(kh, kw)
  {
    hide Coordinate, Val4, Signed, Read4, WellStrided, Representable;
    var h := Coordinate(oh, s.stride, s.padding, kh);
    var w := Coordinate(ow, s.stride, s.padding, kw);
    CoordinatesExact(oh, x.height, s.stride, s.padding, s.kernel, kh);
    CoordinatesExact(ow, x.width, s.stride, s.padding, s.kernel, kw);
    var row, col := oh * s.stride + kh, ow * s.stride + kw;
    assert h == row - s.padding && w == col - s.padding;
    ValIs(weights, oc, ic, kh, kw);
    if h >= 0 && h < Signed(x.height) && w >= 0 && w < Signed(x.width) {
      ValIs(x, b, ic, h, w);
      v := Read4(x, b, ic, h, w) * Read4(weights, oc, ic, kh, kw);
    } else {
      PaddedZero(x, s.padding, b, ic, row, col);
      v := 0.0;
    }
  }

  lemma ValIs(t: Tensor4D, b: nat, c: nat, h: nat, w: nat)
    requires Inside(t, b, c, h, w)
    ensures Val4(t, b, c, h, w) == Read4(t, b, c, h, w)
  {}

  lemma PaddedZero(x: Tensor4D, padding: nat, b: nat, c: nat, row: nat, col: nat)
    requires !(padding <= row < padding + x.height && padding <= col < padding + x.width)
    ensures Padded(x, padding, b, c, row, col) == 0.0
  {}

  /** The three inner loops. */
  method WindowSum(s: Shape, x: Tensor4D, weights: Tensor4D, bias: Tensor4D, b: nat, oc: nat, oh: nat, ow: nat)
    returns (sum: real)
    requires Accepts(s, x) && Parameters(s, weights, bias) && Cursor(s, x, b, oc, oh, ow)
    ensures sum == Sum(Channels(s, x, weights, b, oc, oh, ow), s.inChannels)
  {
    hide Accepts, Parameters, Cursor, Window, WellStrided, Sum, Across;
    sum := 0.0;
    ghost var f := Channels(s, x, weights, b, oc, oh, ow);
    SumStart(f);
    for ic := 0 to s.inChannels
      invariant sum == Sum(f, ic)
    {
      ghost var win := Window(s, x, weights, b, oc, oh, ow, ic);
      ghost var rows := Across(win, s.kernel);
      SumStart(rows);
      for kh := 0 to s.kernel
        invariant sum == Sum(f, ic) + Sum(rows, kh)
      {
        ghost var row := (kw: nat) => win(kh, kw);
        SumStart(row);
        for kw := 0 to s.kernel
          invariant sum == Sum(f, ic) + Sum(rows, kh) + Sum(row, kw)
        {
          var v := Term(s, x, weights, bias, b, oc, oh, ow, ic, kh, kw);
          sum := sum + v;
          SumStep(row, kw);
        }
        AcrossAt(win, s.kernel, kh, row);
        SumStep(rows, kh);
      }
      SumStep(f, ic);
    }
  }

  /** Every cell before (b, c, h, w) holds its convolution. */
  ghost predicate Done(u: Tensor4D, s: Shape, x: Tensor4D, weights: Tensor4D, bias: Tensor4D, b: nat, c: nat, h: nat,
                       w: nat) {
    forall i: nat, j: nat, k: nat, l: nat {:trigger Val4(u, i, j, k, l)} ::
      Inside(u, i, j, k, l) && Before(i, j, k, l, b, c, h, w) ==>
        Val4(u, i, j, k, l) == Convolution(s, x, weights, bias, i, j, k, l)
  }

  lemma DoneNothing(u: Tensor4D, s: Shape, x: Tensor4D, weights: Tensor4D, bias: Tensor4D)
    ensures Done(u, s, x, weights, bias, 0, 0, 0, 0)
  {}

  lemma {:induction false} DoneStep(u: Tensor4D, s: Shape, x: Tensor4D, weights: Tensor4D, bias: Tensor4D, b: nat,
                                    c: nat, h: nat, w: nat)
    requires Done(u, s, x, weights, bias, b, c, h, w) && Inside(u, b, c, h, w)
    ensures Done(Write4(u, b, c, h, w, Convolution(s, x, weights, bias, b, c, h, w)),
                 s, x, weights, bias, b, c, h, w + 1)
  {
    hide Val4, Convolution, Write4;
    var v := Convolution(s, x, weights, bias, b, c, h, w);
    forall i: nat, j: nat, k: nat, l: nat
      ensures Val4(Write4(u, b, c, h, w, v), i, j, k, l)
           == if i == b && j == c && k == h && l == w then v else Val4(u, i, j, k, l) {
      WriteReads(u, b, c, h, w, v, i, j, k, l);
    }
  }

  /** Finishing a row, a plane or an image moves on to the next one. */
  lemma {:induction false} DoneCarries(u: Tensor4D, s: Shape, x: Tensor4D, weights: Tensor4D, bias: Tensor4D, b: nat,
                                       c: nat, h: nat)
    ensures Done(u, s, x, weights, bias, b, c, h, u.width) ==> Done(u, s, x, weights, bias, b, c, h + 1, 0)
    ensures Done(u, s, x, weights, bias, b, c, u.height, 0) ==> Done(u, s, x, weights, bias, b, c + 1, 0, 0)
    ensures Done(u, s, x, weights, bias, b, u.channels, 0, 0) ==> Done(u, s, x, weights, bias, b + 1, 0, 0, 0)
  {
    hide Val4, Convolution;
  }

  /** The output is the convolution of the zero-padded input, at every window that fits. */
  ghost predicate IsConvolution(y: Tensor4D, s: Shape, x: Tensor4D, weights: Tensor4D, bias: Tensor4D)
    requires s.stride > 0
  {
    && y.batch == x.batch && y.channels == s.outChannels
    && y.height == OutSize(x.height, s.padding, s.kernel, s.stride)
    && y.width == OutSize(x.width, s.padding, s.kernel, s.stride)
    && forall b: nat, c: nat, h: nat, w: nat :: Inside(y, b, c, h, w) ==>
         Val4(y, b, c, h, w) == Convolution(s, x, weights, bias, b, c, h, w)
  }

  /** One cell of the output. */
  method Pixel(s: Shape, x: Tensor4D, weights: Tensor4D, bias: Tensor4D, b: nat, oc: nat, oh: nat, ow: nat)
    returns (v: real)
    requires Accepts(s, x) && Parameters(s, weights, bias) && b < x.batch && oc < s.outChannels
    requires oh < OutSize(x.height, s.padding, s.kernel, s.stride)
    requires ow < OutSize(x.width, s.padding, s.kernel, s.stride)
    ensures v == Convolution(s, x, weights, bias, b, oc, oh, ow)
  {
    hide OutSize, Channels, Sum, Read4, Val4;
    WindowFits(oh, x.height, s.padding, s.kernel, s.stride);
    WindowFits(ow, x.width, s.padding, s.kernel, s.stride);
    var sum := WindowSum(s, x, weights, bias, b, oc, oh, ow);
    ValIs(bias, 0, oc, 0, 0);
    v := sum + Read4(bias, 0, oc, 0, 0);
  }

  /** The four outer loops. */
  method Convolve(shape: Shape, input: Tensor4D, weights: Tensor4D, bias: Tensor4D) returns (output: Tensor4D)
    requires Accepts(shape, input) && Parameters(shape, weights, bias)
    ensures IsConvolution(output, shape, input, weights, bias)
  {
    hide Done, Convolution, OutSize, Val4, Write4, Accepts, Parameters, WellStrided, Make, Before;
    StridePositive(shape, input);
    var outH := OutSize(input.height, shape.padding, shape.kernel, shape.stride);
    var outW := OutSize(input.width, shape.padding, shape.kernel, shape.stride);
    output := Make(input.batch, shape.outChannels, outH, outW);
    DoneNothing(output, shape, input, weights, bias);
    for b := 0 to input.batch
      invariant Sized(output, input.batch, shape.outChannels, outH, outW)
      invariant Done(output, shape, input, weights, bias, b, 0, 0, 0)
    {
      for oc := 0 to shape.outChannels
        invariant Sized(output, input.batch, shape.outChannels, outH, outW)
        invariant Done(output, shape, input, weights, bias, b, oc, 0, 0)
      {
        for oh := 0 to outH
          invariant Sized(output, input.batch, shape.outChannels, outH, outW)
          invariant Done(output, shape, input, weights, bias, b, oc, oh, 0)
        {
          for ow := 0 to outW
            invariant Sized(output, input.batch, shape.outChannels, outH, outW)
            invariant Done(output, shape, input, weights, bias, b, oc, oh, ow)
          {
            var v := Pixel(shape, input, weights, bias, b, oc, oh, ow);
            DoneStep(output, shape, input, weights, bias, b, oc, oh, ow);
            output := Write4(output, b, oc, oh, ow, v);
          }
          DoneCarries(output, shape, input, weights, bias, b, oc, oh);
        }
        DoneCarries(output, shape, input, weights, bias, b, oc, outH);
      }
      DoneCarries(output, shape, input, weights, bias, b, shape.outChannels, 0);
    }
    DoneAll(output, shape, input, weights, bias);
  }

  class Conv2DLayer {
    const shape: Shape
    var weights: Tensor4D
    var bias: Tensor4D
    var inputCache: Tensor4D

    ghost predicate Valid()
      reads this
    {
      Parameters(shape, weights, bias)
    }

    /** The random weights come from outside. */
    constructor (shape: Shape, initial: Tensor4D)
      requires initial.batch == shape.outChannels && initial.channels == shape.inChannels
      requires initial.height == shape.kernel && initial.width == shape.kernel
      ensures Valid() && this.shape == shape && weights == initial && bias == Make(1, shape.outChannels, 1, 1)
    {
      this.shape := shape;
      weights := initial;
      bias := Make(1, shape.outChannels, 1, 1);
      inputCache := Make(0, 0, 0, 0);
    }

    method Forward(input: Tensor4D) returns (output: Tensor4D)
      requires Valid() && Accepts(shape, input)
      modifies this`inputCache
      ensures Valid() && inputCache == input
      ensures IsConvolution(output, shape, input, weights, bias)
    {
      inputCache := input;
      output := Convolve(shape, input, weights, bias);
    }
  }

  lemma StridePositive(s: Shape, x: Tensor4D)
    requires Accepts(s, x)
    ensures s.stride > 0
  {}

  ghost predicate Sized(t: Tensor4D, b: nat, c: nat, h: nat, w: nat) {
    t.batch == b && t.channels == c && t.height == h && t.width == w
  }

  lemma {:induction false} DoneAll(u: Tensor4D, s: Shape, x: Tensor4D, weights: Tensor4D, bias: Tensor4D)
    requires Done(u, s, x, weights, bias, u.batch, 0, 0, 0)
    ensures forall b: nat, c: nat, h: nat, w: nat :: Inside(u, b, c, h, w) ==>
              Val4(u, b, c, h, w) == Convolution(s, x, weights, bias, b, c, h, w)
  {
    hide Val4, Convolution;
  }

  // ------------------------------------------------------------------ unit kernels

  /** The kernel of channel `oc` is one at (ic, kh, kw) and zero elsewhere. */
  ghost predicate UnitAt(s: Shape, weights: Tensor4D, oc: nat, ic: nat, kh: nat, kw: nat) {
    && ic < s.inChannels && kh < s.kernel && kw < s.kernel
    && forall i: nat, k: nat, l: nat {:trigger Val4(weights, oc, i, k, l)} ::
         i < s.inChannels && k < s.kernel && l < s.kernel ==>
           Val4(weights, oc, i, k, l) == if i == ic && k == kh && l == kw then 1.0 else 0.0
  }

  /** With a unit kernel the output, less the bias, is the input moved: output cell (oh, ow) is the input cell
      under the kernel's one, and zero if that lies in the padding. */
  lemma {:induction false} UnitKernel(s: Shape, x: Tensor4D, weights: Tensor4D, bias: Tensor4D, b: nat, oc: nat,
                                      oh: nat, ow: nat, ic: nat, kh: nat, kw: nat)
    requires UnitAt(s, weights, oc, ic, kh, kw)
    ensures var row, col := oh * s.stride + kh, ow * s.stride + kw;
      Convolution(s, x, weights, bias, b, oc, oh, ow) - Val4(bias, 0, oc, 0, 0) ==
        if s.padding <= row < s.padding + x.height && s.padding <= col < s.padding + x.width
        then Val4(x, b, ic, row - s.padding, col - s.padding) else 0.0
  {
    hide Val4, Sum, Total;
    var f := Channels(s, x, weights, b, oc, oh, ow);
    forall i: nat | i < s.inChannels && i != ic ensures f(i) == 0.0 {
      WindowZero(s, x, weights, b, oc, oh, ow, ic, kh, kw, i);
    }
    SumOne(f, s.inChannels, ic);
    WindowOne(s, x, weights, b, oc, oh, ow, ic, kh, kw);
    var row, col := oh * s.stride + kh, ow * s.stride + kw;
    if !(s.padding <= row < s.padding + x.height && s.padding <= col < s.padding + x.width) {
      PaddedZero(x, s.padding, b, ic, row, col);
    }
  }

  lemma {:induction false} WindowZero(s: Shape, x: Tensor4D, weights: Tensor4D, b: nat, oc: nat, oh: nat, ow: nat,
                                      ic: nat, kh: nat, kw: nat, i: nat)
    requires UnitAt(s, weights, oc, ic, kh, kw) && i < s.inChannels && i != ic
    ensures Total(Window(s, x, weights, b, oc, oh, ow, i), s.kernel, s.kernel) == 0.0
  {
    hide Val4, Padded, Sum, Total;
    var win := Window(s, x, weights, b, oc, oh, ow, i);
    forall k: nat, l: nat | k < s.kernel && l < s.kernel ensures win(k, l) == 0.0 {
      assert Val4(weights, oc, i, k, l) == 0.0;
    }
    TotalOne(win, s.kernel, s.kernel, kh, kw);
  }

  lemma {:induction false} WindowOne(s: Shape, x: Tensor4D, weights: Tensor4D, b: nat, oc: nat, oh: nat, ow: nat,
                                     ic: nat, kh: nat, kw: nat)
    requires UnitAt(s, weights, oc, ic, kh, kw)
    ensures Total(Window(s, x, weights, b, oc, oh, ow, ic), s.kernel, s.kernel)
         == Padded(x, s.padding, b, ic, oh * s.stride + kh, ow * s.stride + kw)
  {
    hide Val4, Padded, Sum, Total;
    var win := Window(s, x, weights, b, oc, oh, ow, ic);
    assert Val4(weights, oc, ic, kh, kw) == 1.0;
    forall k: nat, l: nat | k < s.kernel && l < s.kernel && !(k == kh && l == kw) ensures win(k, l) == 0.0 {
      assert Val4(weights, oc, ic, k, l) == 0.0;
    }
    TotalOne(win, s.kernel, s.kernel, kh, kw);
  }
}
