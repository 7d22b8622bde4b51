/** The greedy run-length packer: exact, and as short as any packing can be. */
module RunLength {
  import opened Collections
  import opened Arithmetic
  import opened Bytes

  /** `count` pixels of one colour. */
  datatype Packet<T> = Packet(count: nat, colour: T)

  function Expand<T>(ps: seq<Packet<T>>): seq<T> {
    if ps == [] then [] else Repeat(ps[0].colour, ps[0].count) + Expand(ps[1..])
  }

  /** Length of the run at the front, at most `limit`. */
  function Run<T(==)>(px: seq<T>, limit: nat): (k: nat)
    ensures k <= |px| && k <= limit && (px != [] && limit > 0 ==> k > 0)
    ensures forall i :: 0 <= i < k ==> px[i] == px[0]
    ensures k < |px| && k < limit ==> px[k] != px[0]
    decreases limit
  {
    if limit == 0 || px == [] then 0
    else
      var k := Run(px, limit - 1);
      if k == limit - 1 && k < |px| && (k == 0 || px[k] == px[0]) then k + 1 else k
  }

  function Greedy<T(==)>(px: seq<T>): (ps: seq<Packet<T>>)
    decreases |px|
  {
    if px == [] then [] else
      var k := Run(px, 255);
      [Packet(k, px[0])] + Greedy(px[k..])
  }

  // ------------------------------------------------------------------------- exact

  lemma {:induction false} GreedyExpands<T>(px: seq<T>)
    ensures Expand(Greedy(px)) == px
    decreases |px|
  {
    hide Greedy, Run;
    if px == [] {
      GreedyNone(px, 0);
      assert px[0..] == px;
    } else {
      hide Expand;
      var rest := px[Run(px, 255)..];
      GreedyExpands(rest);
      ExpandsFrom(px, rest);
    }
  }

  lemma {:induction false} ExpandsFrom<T>(px: seq<T>, rest: seq<T>)
    requires px != [] && rest == px[Run(px, 255)..] && Expand(Greedy(rest)) == rest
    ensures Expand(Greedy(px)) == px
  {
    hide Expand, Repeat, Greedy, Run;
    var k := Run(px, 255);
    GreedyUnfolds(px, k);
    RunIsRepeat(px, k);
    ExpandCons(Packet(k, px[0]), Greedy(rest));
  }

  lemma {:induction false} GreedyUnfolds<T>(px: seq<T>, k: nat)
    requires px != [] && k == Run(px, 255)
    ensures Greedy(px) == [Packet(k, px[0])] + Greedy(px[k..])
  {
    hide Run;
  }

  lemma RunIsRepeat<T>(px: seq<T>, k: nat)
    requires px != [] && k <= |px| && forall i :: 0 <= i < k ==> px[i] == px[0]
    ensures px[..k] == Repeat(px[0], k)
  {}

  lemma ExpandCons<T>(p: Packet<T>, ps: seq<Packet<T>>)
    ensures Expand([p] + ps) == Repeat(p.colour, p.count) + Expand(ps)
  {
    assert ([p] + ps)[1..] == ps;
  }

  lemma {:induction false} GreedyCounts<T>(px: seq<T>, i: nat)
    requires i < |Greedy(px)|
    ensures 1 <= Greedy(px)[i].count <= 255 && Greedy(px)[i].colour in px
    decreases |px|
  {
    hide Run;
    var k := Run(px, 255);
    if i > 0 {
      GreedyCounts(px[k..], i - 1);
      assert px == px[..k] + px[k..];
    }
  }

  // ----------------------------------------------------------------------- minimal

  /** The first packet of the pixels and of the pixels from `j` on: where the first reaches past `j`, the second
      reaches at least as far. */
  lemma {:induction false} FirstPackets<T>(px: seq<T>, j: nat) returns (k: nat, l: nat)
    requires 0 < j < |px|
    ensures 1 <= k <= |px| && |Greedy(px)| == 1 + |Greedy(px[k..])|
    ensures j < k ==> 1 <= l && k <= j + l <= |px| && |Greedy(px[j..])| == 1 + |Greedy(px[j + l..])|
  {
    hide Greedy, Run;
    k := Run(px, 255);
    GreedyUnfolds(px, k);
    l := Run(px[j..], 255);
    if j < k {
      GreedyUnfolds(px[j..], l);
      RunReaches(px, j, k, l);
      SuffixOf(px, j, j + l);
    }
  }

  /** Dropping pixels from the front never needs more packets. */
  lemma {:induction false} SuffixNeedsNoMore<T>(px: seq<T>, j: nat)
    requires j <= |px|
    ensures |Greedy(px[j..])| <= |Greedy(px)|
    decreases |px|
  {
    hide Greedy;
    if j == 0 {
      assert px[j..] == px;
    } else if j == |px| {
      GreedyNone(px, j);
    } else {
      var k, l := FirstPackets(px, j);
      var i := if j < k then j + l else j;
      SuffixNeedsNoMore(px[k..], i - k);
      SuffixOf(px, k, i);
    }
  }

  lemma SuffixOf<T>(s: seq<T>, a: nat, b: nat)
    requires a <= b <= |s|
    ensures s[a..][b - a..] == s[b..]
  {}

  lemma {:induction false} RunReaches<T>(px: seq<T>, j: nat, k: nat, l: nat)
    requires px != [] && j < k == Run(px, 255) && l == Run(px[j..], 255)
    ensures j + l >= k
  {
    hide Run;
    var s := px[j..];
    assert forall i :: 0 <= i < k - j ==> s[i] == px[j + i] == px[0];
  }

  /** A packing's first packet covers part of the first run. */
  lemma {:induction false} FirstPacketFits<T>(px: seq<T>, p: Packet<T>, rest: seq<T>)
    requires px == Repeat(p.colour, p.count) + rest && 0 < p.count <= 255
    ensures p.count <= Run(px, 255)
  {
    hide Run;
    var k := Run(px, 255);
    assert forall i :: 0 <= i < p.count ==> px[i] == Repeat(p.colour, p.count)[i];
  }

  /** No packing with counts up to 255 that expands to the same pixels is shorter. */
  lemma {:induction false} GreedyIsShortest<T>(ps: seq<Packet<T>>)
    requires forall i :: 0 <= i < |ps| ==> ps[i].count <= 255
    ensures |Greedy(Expand(ps))| <= |ps|
    decreases |ps|
  {
    hide Run, Greedy;
    if ps == [] {
      GreedyNone(Expand(ps), 0);
      assert Expand(ps)[0..] == Expand(ps);
    } else {
      GreedyIsShortest(ps[1..]);
      var px, rest := Expand(ps), Expand(ps[1..]);
      var c := ps[0].count;
      if c == 0 {
        assert px == rest;
      } else {
        FirstPacketFits(px, ps[0], rest);
        var k := Run(px, 255);
        GreedyUnfolds(px, k);
        assert px[c..] == rest;
        SuffixOf(px, c, k);
        SuffixNeedsNoMore(rest, k - c);
      }
    }
  }

  // ---------------------------------------------------------------------- the bytes

  type Pixel = seq<Byte>

  /** Packets whose count fits a byte and whose colour has `channels` bytes. */
  ghost predicate Packable(ps: seq<Packet<Pixel>>, channels: nat) {
    forall i :: 0 <= i < |ps| ==> ps[i].count < 256 && |ps[i].colour| == channels
  }

  function PacketBytes(p: Packet<Pixel>): seq<Byte>
    requires p.count < 256
  {
    [p.count] + p.colour
  }

  /** The packed payload: each packet is its count byte and then its colour bytes. */
  ghost function Payload(ps: seq<Packet<Pixel>>, channels: nat): seq<Byte>
    requires Packable(ps, channels)
  {
    if ps == [] then [] else PacketBytes(ps[0]) + Payload(ps[1..], channels)
  }

  /** A reader of such a payload. */
  function Unpack(bytes: seq<Byte>, channels: nat): seq<Packet<Pixel>>
    decreases |bytes|
  {
    if |bytes| < 1 + channels then []
    else [Packet(bytes[0], bytes[1..1 + channels])] + Unpack(bytes[1 + channels..], channels)
  }

  lemma {:induction false} UnpackPayload(ps: seq<Packet<Pixel>>, channels: nat)
    requires Packable(ps, channels)
    ensures Unpack(Payload(ps, channels), channels) == ps
    ensures |Payload(ps, channels)| == |ps| * (1 + channels)
    decreases |ps|
  {
    if ps != [] {
      var rest := Payload(ps[1..], channels);
      var bytes := Payload(ps, channels);
      UnpackPayload(ps[1..], channels);
      assert bytes[1..1 + channels] == ps[0].colour && bytes[1 + channels..] == rest;
      assert |ps| * (1 + channels) == (|ps| - 1) * (1 + channels) + (1 + channels);
    }
  }

  /** Whatever is read is packable and no longer than what it was read from. */
  lemma {:induction false} UnpackSize(bytes: seq<Byte>, channels: nat)
    ensures Packable(Unpack(bytes, channels), channels) && |Unpack(bytes, channels)| * (1 + channels) <= |bytes|
    decreases |bytes|
  {
    if |bytes| >= 1 + channels {
      var rest := Unpack(bytes[1 + channels..], channels);
      UnpackSize(bytes[1 + channels..], channels);
      assert (|rest| + 1) * (1 + channels) == |rest| * (1 + channels) + (1 + channels);
    }
  }

  /** The packet at byte `at`: a count and then the colour. */
  function PacketAt(bytes: seq<Byte>, channels: nat, at: nat): Packet<Pixel>
    requires at + 1 + channels <= |bytes|
  {
    Packet(bytes[at], bytes[at + 1..at + 1 + channels])
  }

  lemma PacketShift(bytes: seq<Byte>, channels: nat, skip: nat, at: nat)
    requires skip + at + 1 + channels <= |bytes|
    ensures PacketAt(bytes[skip..], channels, at) == PacketAt(bytes, channels, skip + at)
  {
    assert bytes[skip..][at + 1..at + 1 + channels] == bytes[skip + at + 1..skip + at + 1 + channels];
  }

  lemma UnpackFirst(bytes: seq<Byte>, channels: nat)
    requires |bytes| >= 1 + channels
    ensures Unpack(bytes, channels) == [PacketAt(bytes, channels, 0)] + Unpack(bytes[1 + channels..], channels)
  {}

  /** Packet `i` of a payload starts at byte i * (1 + channels). */
  lemma {:induction false} UnpackAt(bytes: seq<Byte>, channels: nat, i: nat)
    requires i < |Unpack(bytes, channels)|
    ensures i * (1 + channels) + 1 + channels <= |bytes|
    ensures Unpack(bytes, channels)[i] == PacketAt(bytes, channels, i * (1 + channels))
    decreases i
  {
    assert |bytes| >= 1 + channels;
    UnpackFirst(bytes, channels);
    hide Unpack, PacketAt;
    if i > 0 {
      var width := 1 + channels;
      UnpackAt(bytes[width..], channels, i - 1);
      assert i * width == width + (i - 1) * width;
      PacketShift(bytes, channels, width, (i - 1) * width);
    }
  }

  lemma {:induction false} PayloadSnoc(ps: seq<Packet<Pixel>>, p: Packet<Pixel>, channels: nat)
    requires Packable(ps, channels) && p.count < 256 && |p.colour| == channels
    ensures Packable(ps + [p], channels)
    ensures Payload(ps + [p], channels) == Payload(ps, channels) + PacketBytes(p)
    decreases |ps|
  {
    if ps == [] {
      assert ps + [p] == [p];
      assert Payload([p], channels) == PacketBytes(p) + Payload([p][1..], channels);
    } else {
      PayloadSnoc(ps[1..], p, channels);
      assert (ps + [p])[1..] == ps[1..] + [p];
    }
  }

  /** The pixels of a raw buffer with `channels` bytes each. */
  function Pixels(raw: seq<Byte>, channels: nat, total: nat): (px: seq<Pixel>)
    requires |raw| >= total * channels
    ensures |px| == total
  {
    seq(total, i requires 0 <= i < total => PixelAt(raw, channels, total, i))
  }

  function PixelAt(raw: seq<Byte>, channels: nat, total: nat, i: nat): (p: Pixel)
    requires |raw| >= total * channels && i < total
    ensures |p| == channels
  {
    PixelInside(channels, total, i);
    raw[i * channels..i * channels + channels]
  }

  lemma PixelInside(channels: nat, total: nat, i: nat)
    requires i < total
    ensures i * channels + channels <= total * channels
  {
    assert (i + 1) * channels == i * channels + channels;
    Scale(i + 1, total, channels);
  }

  lemma PixelByte(raw: seq<Byte>, channels: nat, total: nat, i: nat, c: nat)
    requires |raw| >= total * channels && i < total && c < channels
    ensures i * channels + c < |raw| && PixelAt(raw, channels, total, i)[c] == raw[i * channels + c]
  {
    PixelInside(channels, total, i);
  }

  /** The channel loop of the comparison. */
  method PixelsMatch(raw: seq<Byte>, channels: nat, total: nat, i: nat, j: nat) returns (same: bool)
    requires |raw| >= total * channels && i < total && j < total
    ensures same <==> PixelAt(raw, channels, total, i) == PixelAt(raw, channels, total, j)
  {
    hide PixelAt;
    ghost var a, b := PixelAt(raw, channels, total, i), PixelAt(raw, channels, total, j);
    for c := 0 to channels
      invariant forall d :: 0 <= d < c ==> a[d] == b[d]
    {
      PixelByte(raw, channels, total, i, c);
      PixelByte(raw, channels, total, j, c);
      if raw[i * channels + c] != raw[j * channels + c] { return false; }
    }
    return true;
  }

  lemma {:induction false} RunUnique(px: seq<Pixel>, k: nat)
    requires 1 <= k <= |px| && k <= 255
    requires forall i :: 0 <= i < k ==> px[i] == px[0]
    requires k < |px| && k < 255 ==> px[k] != px[0]
    ensures k == Run(px, 255)
  {
    hide Run;
  }

  /** The run loop. */
  method MeasureRun(raw: seq<Byte>, channels: nat, total: nat, i: nat) returns (run: nat)
    requires |raw| >= total * channels && i < total
    ensures 1 <= run <= 255 && i + run <= total
    ensures run == Run(Pixels(raw, channels, total)[i..], 255)
  {
    hide PixelAt, Run;
    ghost var px := Pixels(raw, channels, total);
    ghost var s: seq<Pixel> := px[i..];
    run := 1;
    while i + run < total && run < 255
      invariant 1 <= run <= 255 && i + run <= total
      invariant forall d :: 0 <= d < run ==> s[d] == s[0]
    {
      var same := PixelsMatch(raw, channels, total, i, i + run);
      if !same { break; }
      run := run + 1;
    }
    RunUnique(s, run);
  }

  /** Packing a raw image of `w` times `h` pixels: the payload reads back as the pixels, with
      counts from 1 to 255, and no payload that reads back as the same pixels is shorter. */
  method Compress(raw: seq<Byte>, w: nat, h: nat, channels: nat) returns (payload: seq<Byte>)
    requires |raw| >= w * h * channels
    ensures Expand(Unpack(payload, channels)) == Pixels(raw, channels, w * h)
    ensures SameImage(Expand(Unpack(payload, channels)), raw, channels, w * h)
    ensures forall p :: p in Unpack(payload, channels) ==> 1 <= p.count <= 255
    ensures forall q: seq<Byte> :: Expand(Unpack(q, channels)) == Pixels(raw, channels, w * h) ==> |payload| <= |q|
  {
    hide PixelAt, Pixels, Run, Greedy, Payload, Packable, Expand, Unpack, SameImage;
    var total := w * h;
    ghost var px := Pixels(raw, channels, total);
    payload := [];
    ghost var ps: seq<Packet<Pixel>> := [];
    var i := 0;
    StartPacking(px, channels);
    while i < total
      invariant i <= total && Packable(ps, channels) && payload == Payload(ps, channels)
      invariant ps + Greedy(px[i..]) == Greedy(px)
    {
      var run := MeasureRun(raw, channels, total, i);
      var colour := PixelAt(raw, channels, total, i);
      PayloadSnoc(ps, Packet(run, colour), channels);
      GreedyTakes(raw, channels, total, i, run);
      payload := payload + [run] + colour;
      ps := ps + [Packet(run, colour)];
      i := i + run;
    }
    GreedyNone(px, i);
    PackedWell(px, ps, channels);
    PixelsAreImage(raw, channels, total);
  }

  /** Byte `c` of pixel `i` is the byte of the image there. */
  ghost predicate ByteMatches(px: seq<Pixel>, raw: seq<Byte>, channels: nat, i: nat, c: nat) {
    i < |px| && c < |px[i]| && i * channels + c < |raw| && px[i][c] == raw[i * channels + c]
  }

  /** The bytes of the pixels, one pixel after the other, are the bytes of the image. */
  ghost predicate SameImage(px: seq<Pixel>, raw: seq<Byte>, channels: nat, total: nat) {
    && |px| == total && (forall i :: 0 <= i < total ==> |px[i]| == channels)
    && forall i: nat, c: nat :: i < total && c < channels ==> ByteMatches(px, raw, channels, i, c)
  }

  lemma {:induction false} PixelsAreImage(raw: seq<Byte>, channels: nat, total: nat)
    requires |raw| >= total * channels
    ensures SameImage(Pixels(raw, channels, total), raw, channels, total)
  {
    hide PixelAt, ByteMatches;
    var px := Pixels(raw, channels, total);
    forall i: nat, c: nat | i < total && c < channels ensures ByteMatches(px, raw, channels, i, c) {
      PixelMatches(raw, channels, total, i, c);
    }
  }

  lemma {:induction false} PixelMatches(raw: seq<Byte>, channels: nat, total: nat, i: nat, c: nat)
    requires |raw| >= total * channels && i < total && c < channels
    ensures ByteMatches(Pixels(raw, channels, total), raw, channels, i, c)
  {
    hide PixelAt;
    PixelByte(raw, channels, total, i, c);
  }

  lemma StartPacking(px: seq<Pixel>, channels: nat)
    ensures Packable([], channels) && Payload([], channels) == [] && px[0..] == px
  {}

  lemma {:induction false} GreedyNone<T>(px: seq<T>, i: nat)
    requires i == |px|
    ensures Greedy(px[i..]) == []
  {
    hide Run;
  }

  lemma {:induction false} GreedyTakes(raw: seq<Byte>, channels: nat, total: nat, i: nat, run: nat)
    requires |raw| >= total * channels && i < total && i + run <= total
    requires run == Run(Pixels(raw, channels, total)[i..], 255)
    ensures var px := Pixels(raw, channels, total);
            Greedy(px[i..]) == [Packet(run, PixelAt(raw, channels, total, i))] + Greedy(px[i + run..])
  {
    hide PixelAt;
    var px := Pixels(raw, channels, total);
    assert px[i..][run..] == px[i + run..];
    assert px[i..][0] == px[i];
  }

  /** What the greedy packets guarantee as bytes. */
  lemma {:induction false} PackedWell(px: seq<Pixel>, ps: seq<Packet<Pixel>>, channels: nat)
    requires ps == Greedy(px) && Packable(ps, channels)
    ensures Expand(Unpack(Payload(ps, channels), channels)) == px
    ensures forall p :: p in Unpack(Payload(ps, channels), channels) ==> 1 <= p.count <= 255
    ensures forall q: seq<Byte> :: Expand(Unpack(q, channels)) == px ==> |Payload(ps, channels)| <= |q|
  {
    hide Greedy, Payload, Expand, Unpack;
    UnpackPayload(ps, channels);
    GreedyExpands(px);
    forall p | p in ps ensures 1 <= p.count <= 255 {
      var i :| 0 <= i < |ps| && ps[i] == p;
      GreedyCounts(px, i);
    }
    forall q: seq<Byte> | Expand(Unpack(q, channels)) == px ensures |Payload(ps, channels)| <= |q| {
      UnpackSize(q, channels);
      GreedyIsShortest(Unpack(q, channels));
      Scale(|ps|, |Unpack(q, channels)|, 1 + channels);
    }
  }
}
