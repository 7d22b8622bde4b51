/** Four-dimensional tensors in one strided buffer. */
module Tensors4 {
  import opened Tensors

  datatype Raw4 = Raw4(batch: nat, channels: nat, height: nat, width: nat,
                       strideB: nat, strideC: nat, strideH: nat, data: seq<real>)

  ghost predicate WellStrided(t: Raw4) {
    && t.strideH == t.width
    && t.strideC == t.height * t.width
    && t.strideB == t.channels * t.height * t.width
    && |t.data| == t.batch * t.channels * t.height * t.width
  }

  type Tensor4D = t: Raw4 | WellStrided(t) ghost witness Raw4(0, 0, 0, 0, 0, 0, 0, [])

  ghost predicate Inside(t: Tensor4D, b: nat, c: nat, h: nat, w: nat) {
    b < t.batch && c < t.channels && h < t.height && w < t.width
  }

  /** The place `at` computes. */
  function Place(t: Tensor4D, b: nat, c: nat, h: nat, w: nat): nat {
    b * t.strideB + c * t.strideC + h * t.strideH + w
  }

  /** The same place by nested rows. */
  ghost function Nested(t: Tensor4D, b: nat, c: nat, h: nat, w: nat): nat {
    Cell(Cell(Cell(b, c, t.channels), h, t.height), w, t.width)
  }

  lemma Spread(a: nat, b: nat, c: nat)
    ensures (a + b) * c == a * c + b * c && a * (b * c) == (a * b) * c
  {}

  lemma PlaceIsNested(t: Tensor4D, b: nat, c: nat, h: nat, w: nat)
    ensures Place(t, b, c, h, w) == Nested(t, b, c, h, w)
  {
    var C, H, W := t.channels, t.height, t.width;
    Spread(b * C, c, H);
    Spread((b * C) * H + c * H, h, W);
    Spread((b * C) * H, c * H, W);
    Spread(b, C * H, W);
    Spread(b, C, H);
    Spread(c, H, W);
  }

  lemma PlaceInside(t: Tensor4D, b: nat, c: nat, h: nat, w: nat)
    requires Inside(t, b, c, h, w)
    ensures Place(t, b, c, h, w) < |t.data|
  {
    PlaceIsNested(t, b, c, h, w);
    CellBelow(b, c, t.batch, t.channels);
    CellBelow(Cell(b, c, t.channels), h, t.batch * t.channels, t.height);
    CellBelow(Cell(Cell(b, c, t.channels), h, t.height), w, t.batch * t.channels * t.height, t.width);
  }

  /** Different index vectors never share a cell. */
  lemma {:induction false} PlaceInjective(t: Tensor4D, b: nat, c: nat, h: nat, w: nat, b': nat, c': nat, h': nat,
                                          w': nat)
    requires Inside(t, b, c, h, w) && Inside(t, b', c', h', w')
    requires Place(t, b, c, h, w) == Place(t, b', c', h', w')
    ensures b == b' && c == c' && h == h' && w == w'
  {
    hide Cell;
    PlaceIsNested(t, b, c, h, w);
    PlaceIsNested(t, b', c', h', w');
    CellInjective(Cell(Cell(b, c, t.channels), h, t.height), w,
                  Cell(Cell(b', c', t.channels), h', t.height), w', t.width);
    CellInjective(Cell(b, c, t.channels), h, Cell(b', c', t.channels), h', t.height);
    CellInjective(b, c, b', c', t.channels);
  }

  /** Index vectors in the order batch, channel, row, column. */
  ghost predicate Before(b: nat, c: nat, h: nat, w: nat, b': nat, c': nat, h': nat, w': nat) {
    b < b' || (b == b' && (c < c' || (c == c' && (h < h' || (h == h' && w < w')))))
  }

  /** Entries are stored in that order. */
  lemma {:induction false} PlaceOrder(t: Tensor4D, b: nat, c: nat, h: nat, w: nat, b': nat, c': nat, h': nat, w': nat)
    requires Inside(t, b, c, h, w) && Inside(t, b', c', h', w')
    ensures Place(t, b, c, h, w) < Place(t, b', c', h', w') <==> Before(b, c, h, w, b', c', h', w')
  {
    hide Cell;
    PlaceIsNested(t, b, c, h, w);
    PlaceIsNested(t, b', c', h', w');
    var p, p' := Cell(b, c, t.channels), Cell(b', c', t.channels);
    CellOrder(b, c, b', c', t.channels);
    CellOrder(p, h, p', h', t.height);
    CellOrder(Cell(p, h, t.height), w, Cell(p', h', t.height), w', t.width);
    if p == p' { CellInjective(b, c, b', c', t.channels); }
    if Cell(p, h, t.height) == Cell(p', h', t.height) { CellInjective(p, h, p', h', t.height); }
  }

  function Make(batch: nat, channels: nat, height: nat, width: nat): (t: Tensor4D)
    ensures t.batch == batch && t.channels == channels && t.height == height && t.width == width
  {
    Raw4(batch, channels, height, width, channels * height * width, height * width, width,
         seq(batch * channels * height * width, _ => 0.0))
  }

  /** A read through `at`. */
  function Read4(t: Tensor4D, b: nat, c: nat, h: nat, w: nat): real
    requires Inside(t, b, c, h, w)
  {
    PlaceInside(t, b, c, h, w);
    t.data[Place(t, b, c, h, w)]
  }

  /** The entry, zero outside the extents. */
  ghost function Val4(t: Tensor4D, b: nat, c: nat, h: nat, w: nat): real {
    if Inside(t, b, c, h, w) then Read4(t, b, c, h, w) else 0.0
  }

  /** An assignment through `at`. */
  function Write4(t: Tensor4D, b: nat, c: nat, h: nat, w: nat, v: real): (u: Tensor4D)
    requires Inside(t, b, c, h, w)
    ensures u.batch == t.batch && u.channels == t.channels && u.height == t.height && u.width == t.width
  {
    PlaceInside(t, b, c, h, w);
    t.(data := t.data[Place(t, b, c, h, w) := v])
  }

  lemma WriteReads(t: Tensor4D, b: nat, c: nat, h: nat, w: nat, v: real, b': nat, c': nat, h': nat, w': nat)
    requires Inside(t, b, c, h, w)
    ensures Val4(Write4(t, b, c, h, w, v), b', c', h', w')
         == if b' == b && c' == c && h' == h && w' == w then v else Val4(t, b', c', h', w')
  {
    var u := Write4(t, b, c, h, w, v);
    PlaceInside(t, b, c, h, w);
    if Inside(t, b', c', h', w') {
      PlaceInside(t, b', c', h', w');
      assert Place(u, b', c', h', w') == Place(t, b', c', h', w');
      if Place(t, b, c, h, w) == Place(t, b', c', h', w') { PlaceInjective(t, b, c, h, w, b', c', h', w'); }
    }
  }
}
