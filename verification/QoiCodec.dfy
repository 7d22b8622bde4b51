/** The run-time QOI compressor and the decoder that unpacks its stream into RGBx memory. */
module QoiCodec {
  import opened Collections
  import opened Bytes
  import opened QoiFormat
  import opened QoiLockstep
  import opened QoiLaws

  function BigEndian(x: nat): seq<Byte>
    requires x < 0x1_0000_0000
  {
    [x / 0x100_0000, (x / 0x1_0000) % 256, (x / 0x100) % 256, x % 256]
  }

  function Header(w: nat, h: nat, channels: nat): (bytes: seq<Byte>)
    requires w < 0x8000_0000 && h < 0x8000_0000 && channels < 256
    ensures |bytes| == 14
  {
    [0x71, 0x6F, 0x69, 0x66] + BigEndian(w) + BigEndian(h) + [channels, 0]
  }

  const TRAILER: seq<Byte> := [0, 0, 0, 0, 0, 0, 0, 1]

  ghost predicate IsImage(raw: seq<Byte>, n: nat, channels: nat) {
    (channels == 3 || channels == 4) && |raw| == n * channels
  }

  lemma PixelInRange(raw: seq<Byte>, n: nat, channels: nat, i: nat)
    requires IsImage(raw, n, channels) && i < n
    ensures i * channels + channels <= |raw|
  {
    assert (i + 1) * channels <= n * channels;
  }

  function PixelAt(raw: seq<Byte>, n: nat, channels: nat, i: nat): Pixel
    requires IsImage(raw, n, channels) && i < n
  {
    assert (i + 1) * channels <= n * channels;
    var o := i * channels;
    Pixel(raw[o], raw[o+1], raw[o+2], if channels == 4 then raw[o+3] else 255)
  }

  function PixelsBelow(raw: seq<Byte>, n: nat, channels: nat, k: nat): (ps: seq<Pixel>)
    requires IsImage(raw, n, channels) && k <= n
    ensures |ps| == k && forall i :: 0 <= i < k ==> ps[i] == PixelAt(raw, n, channels, i)
  {
    if k == 0 then [] else PixelsBelow(raw, n, channels, k - 1) + [PixelAt(raw, n, channels, k - 1)]
  }

  function PixelsOf(raw: seq<Byte>, n: nat, channels: nat): (ps: seq<Pixel>)
    requires IsImage(raw, n, channels)
    ensures |ps| == n && forall i :: 0 <= i < n ==> ps[i] == PixelAt(raw, n, channels, i)
    ensures forall i :: 0 <= i < n ==> ps[i].a == if channels == 4 then raw[4*i+3] else 255
  {
    PixelsBelow(raw, n, channels, n)
  }

  /** The stream the encoder is meant to write. */
  function Stream(ps: seq<Pixel>, w: nat, h: nat, channels: nat): seq<Byte>
    requires w < 0x8000_0000 && h < 0x8000_0000 && channels < 256
  {
    Header(w, h, channels) + Concat(EncodeChunks(EncoderStart(), ps)) + TRAILER
  }

  /** The number whose base-256 digits stand at `at`, highest first. */
  function NumberAt(data: seq<Byte>, at: nat): nat
    requires at + 4 <= |data|
  {
    data[at] as nat * 0x100_0000 + data[at+1] as nat * 0x1_0000 + data[at+2] as nat * 0x100 + data[at+3] as nat
  }

  lemma BigEndianDigits(x: nat)
    requires x < 0x1_0000_0000
    ensures NumberAt(BigEndian(x), 0) == x
  {
    var y, z := x / 0x100, x / 0x1_0000;
    assert x == y * 0x100 + x % 0x100;
    assert y / 0x100 == z && y == z * 0x100 + y % 0x100;
    assert z / 0x100 == x / 0x100_0000 && z == x / 0x100_0000 * 0x100 + z % 0x100;
  }

  /** The frame of every stream: the letters "qoif", both extents, the channels, a zero; at the end seven zeros
      and a one. */
  lemma {:induction false} StreamFrame(ps: seq<Pixel>, w: nat, h: nat, channels: nat)
    requires w < 0x8000_0000 && h < 0x8000_0000 && channels < 256
    ensures var data := Stream(ps, w, h, channels);
      && |data| >= 22 && data[..4] == [113, 111, 105, 102]
      && NumberAt(data, 4) == w && NumberAt(data, 8) == h && data[12] == channels && data[13] == 0
      && data[|data| - 8..] == [0, 0, 0, 0, 0, 0, 0, 1]
  {
    BigEndianDigits(w);
    BigEndianDigits(h);
    hide BigEndian, Concat, EncodeChunks;
    BigEndianSize(w);
    BigEndianSize(h);
    var data := Stream(ps, w, h, channels);
    assert data[4..8] == BigEndian(w) && data[8..12] == BigEndian(h);
    assert NumberAt(data, 4) == NumberAt(data[4..8], 0) && NumberAt(data, 8) == NumberAt(data[8..12], 0);
  }

  lemma BigEndianSize(x: nat)
    requires x < 0x1_0000_0000
    ensures |BigEndian(x)| == 4
  {}

  lemma {:induction false} StepBytes(st: EncoderState, ps: seq<Pixel>, k: nat)
    requires st.run < 62 && k < |ps|
    ensures Concat(EncodeChunks(st, ps[k..]))
         == Concat(EncodePixel(st, ps[k])) + Concat(EncodeChunks(NextState(st, ps[k]), ps[k+1..]))
  {
    hide Concat, EncodePixel;
    assert ps[k..][1..] == ps[k+1..] && ps[k..][0] == ps[k];
    ConcatAppend(EncodePixel(st, ps[k]), EncodeChunks(NextState(st, ps[k]), ps[k+1..]));
  }

  /** Two chunks at most are written for one pixel. */
  lemma {:induction false} PixelBytes(st: EncoderState, cur: Pixel)
    requires st.run < 62
    ensures Concat(EncodePixel(st, cur)) ==
      if cur == st.prev then (if st.run + 1 == 62 then RunChunk(62) else [])
      else (if st.run > 0 then RunChunk(st.run) else []) + PixelChunk(st, cur)
  {
    hide PixelChunk;
    if cur == st.prev {
      if st.run + 1 == 62 { ConcatOne(RunChunk(62)); }
    } else {
      ConcatAppend(Flush(st.run), [PixelChunk(st, cur)]);
      ConcatOne(PixelChunk(st, cur));
      if st.run > 0 { ConcatOne(RunChunk(st.run)); }
    }
  }

  /** The colour chunk, written out as the encoder computes it. */
  method EmitColour(prev: Pixel, cur: Pixel) returns (bytes: seq<Byte>)
    ensures bytes == ColourChunk(prev, cur)
  {
    hide Signed8;
    if cur.a == prev.a {
      var dr := Signed8(cur.r - prev.r);
      var dg := Signed8(cur.g - prev.g);
      var db := Signed8(cur.b - prev.b);
      var drdg := Signed8(dr - dg);
      var dbdg := Signed8(db - dg);
      if dr >= -2 && dr <= 1 && dg >= -2 && dg <= 1 && db >= -2 && db <= 1 {
        bytes := [0x40 + (dr + 2) * 16 + (dg + 2) * 4 + (db + 2)];
      } else if dg >= -32 && dg <= 31 && drdg >= -8 && drdg <= 7 && dbdg >= -8 && dbdg <= 7 {
        bytes := [0x80 + (dg + 32), (drdg + 8) * 16 + (dbdg + 8)];
      } else {
        bytes := [0xFE, cur.r, cur.g, cur.b];
      }
    } else {
      bytes := [0xFF, cur.r, cur.g, cur.b, cur.a];
    }
  }

  /** One turn of the encoder loop. */
  method EmitPixel(cache: array<Pixel>, prev: Pixel, run: nat, cur: Pixel, ghost st: EncoderState)
    returns (bytes: seq<Byte>, run': nat)
    requires cache.Length == 64 && cache[..] == st.cache && prev == st.prev && run == st.run < 62
    modifies cache
    ensures bytes == Concat(EncodePixel(st, cur))
    ensures cache[..] == NextState(st, cur).cache && run' == NextState(st, cur).run
  {
    hide Concat, ColourChunk, Hash, EncodePixel;
    PixelBytes(st, cur);
    bytes, run' := [], run;
    if cur == prev {
      run' := run' + 1;
      if run' == 62 {
        bytes := bytes + [0xC0 + (run' - 1)];
        run' := 0;
      }
    } else {
      if run' > 0 {
        bytes := bytes + [0xC0 + (run' - 1)];
        run' := 0;
      }
      var slot := Hash(cur);
      if cache[slot] == cur {
        bytes := bytes + [slot];
      } else {
        cache[slot] := cur;
        var colour := EmitColour(prev, cur);
        bytes := bytes + colour;
      }
    }
  }

  lemma FlushBytes(st: EncoderState)
    requires st.run < 62
    ensures Concat(EncodeChunks(st, [])) == if st.run > 0 then RunChunk(st.run) else []
  {
    if st.run > 0 { ConcatOne(RunChunk(st.run)); }
  }

  /** The encoder loop over the pixels, and the flush of the last run. */
  method CompressBody(raw: seq<Byte>, n: nat, channels: nat) returns (out: seq<Byte>)
    requires IsImage(raw, n, channels)
    ensures out == Concat(EncodeChunks(EncoderStart(), PixelsOf(raw, n, channels)))
  {
    hide Concat, EncodeChunks, EncodePixel, Hash, PixelsOf, NextState;
    var cache := new Pixel[64](i => BLACK);
    var prev, run := BLACK, 0;
    out := [];
    ghost var ps, st := PixelsOf(raw, n, channels), EncoderStart();
    ghost var goal := Concat(EncodeChunks(st, ps));
    assert ps[0..] == ps && cache[..] == StartCache();
    for px := 0 to n
      invariant cache[..] == st.cache && prev == st.prev && run == st.run < 62
      invariant out + Concat(EncodeChunks(st, ps[px..])) == goal
    {
      PixelInRange(raw, n, channels, px);
      var offset := px * channels;
      var cur := Pixel(raw[offset], raw[offset+1], raw[offset+2], if channels == 4 then raw[offset+3] else 255);
      StepBytes(st, ps, px);
      RunStaysShort(st, cur);
      var bytes;
      bytes, run := EmitPixel(cache, prev, run, cur, st);
      assert (out + bytes) + Concat(EncodeChunks(NextState(st, cur), ps[px+1..]))
          == out + (bytes + Concat(EncodeChunks(NextState(st, cur), ps[px+1..])));
      out := out + bytes;
      prev := cur;
      st := NextState(st, cur);
    }
    assert ps[n..] == [];
    FlushBytes(st);
    if run > 0 {
      out := out + [0xC0 + (run - 1)];
    }
  }

  lemma RunStaysShort(st: EncoderState, cur: Pixel)
    requires st.run < 62
    ensures NextState(st, cur).run < 62 && NextState(st, cur).prev == cur
  {}

  /** The encoder writes exactly the specified stream. */
  method CompressToQoi(raw: seq<Byte>, w: nat, h: nat, channels: nat) returns (out: seq<Byte>)
    requires w < 0x8000_0000 && h < 0x8000_0000 && IsImage(raw, w * h, channels)
    ensures out == Stream(PixelsOf(raw, w * h, channels), w, h, channels)
  {
    out := Header(w, h, channels);
    var body := CompressBody(raw, w * h, channels);
    out := out + body + TRAILER;
  }

  // ---------------------------------------------------------------- decoder

  /** The memory of the decoder holds the pixels as red, green, blue and a padding byte, and zeros behind. */
  ghost predicate Written(mem: seq<Byte>, ps: seq<Pixel>) {
    && |mem| >= 4 * |ps|
    && (forall i :: 0 <= i < |ps| ==>
         mem[4*i] == ps[i].r && mem[4*i+1] == ps[i].g && mem[4*i+2] == ps[i].b && mem[4*i+3] == 0xFF)
    && forall j :: 4 * |ps| <= j < |mem| ==> mem[j] == 0
  }

  /** Write `count` copies of a pixel, four bytes each. */
  method WritePixels(mem: array<Byte>, at: nat, px: Pixel, count: nat, ghost done: seq<Pixel>) returns (at': nat)
    requires at == 4 * |done| && 4 * (|done| + count) <= mem.Length && Written(mem[..], done)
    modifies mem
    ensures at' == at + 4 * count && Written(mem[..], done + Repeat(px, count))
  {
    hide Written;
    at' := at;
    assert done + Repeat(px, 0) == done;
    for k := 0 to count
      invariant at' == at + 4 * k && Written(mem[..], done + Repeat(px, k))
    {
      ghost var before := mem[..];
      mem[at'] := px.r;
      mem[at'+1] := px.g;
      mem[at'+2] := px.b;
      mem[at'+3] := 0xFF;
      WrittenMore(before, mem[..], done + Repeat(px, k), px);
      assert done + Repeat(px, k) + [px] == done + Repeat(px, k + 1);
      at' := at' + 4;
    }
  }

  lemma WrittenMore(mem: seq<Byte>, mem': seq<Byte>, ps: seq<Pixel>, px: Pixel)
    requires Written(mem, ps) && 4 * |ps| + 4 <= |mem| == |mem'|
    requires forall j :: 0 <= j < |mem| && !(4 * |ps| <= j < 4 * |ps| + 4) ==> mem'[j] == mem[j]
    requires mem'[4 * |ps|] == px.r && mem'[4 * |ps| + 1] == px.g && mem'[4 * |ps| + 2] == px.b
    requires mem'[4 * |ps| + 3] == 0xFF
    ensures Written(mem', ps + [px])
  {}

  /** One turn of the decoder loop: `r` is what the format says about the bytes from `at` on. */
  method TakeChunk(data: seq<Byte>, at: nat, px: Pixel, cache: array<Pixel>)
    returns (px': Pixel, count: nat, at': nat)
    requires cache.Length == 64 && at < |data| && ReadChunk(data[at..], px, cache[..]).Read?
    ensures at < at' <= |data| && ReadChunk(data[at..], px, cache[..]) == Read(px', count, at' - at)
  {
    var b1 := data[at];
    px', count, at' := px, 1, at + 1;
    if b1 == 0xFE {
      px' := px'.(r := data[at'], g := data[at'+1], b := data[at'+2]);
      at' := at' + 3;
    } else if b1 == 0xFF {
      px' := Pixel(data[at'], data[at'+1], data[at'+2], data[at'+3]);
      at' := at' + 4;
    } else if b1 < 0x40 {
      px' := cache[b1];
    } else if b1 < 0x80 {
      px' := px'.(r := Wrap8(px'.r + (b1 / 16) % 4 - 2), g := Wrap8(px'.g + (b1 / 4) % 4 - 2),
                  b := Wrap8(px'.b + b1 % 4 - 2));
    } else if b1 < 0xC0 {
      var b2, dg := data[at'] as int, b1 as int % 64 - 32;
      at' := at' + 1;
      px' := px'.(r := Wrap8(px'.r + dg - 8 + b2 / 16), g := Wrap8(px'.g + dg), b := Wrap8(px'.b + dg - 8 + b2 % 16));
    } else {
      count := b1 % 64 + 1;
    }
  }

  lemma {:induction false} DecodeStep(data: seq<Byte>, n: nat, px: Pixel, cache: Cache)
    requires n > 0 && data != [] && Decode(data, n, px, cache).Decoded?
    ensures var r := ReadChunk(data, px, cache);
      && r.Read? && r.count <= n
      && Decode(data, n, px, cache)
      == Prepend(Repeat(r.px, r.count), Decode(data[r.size..], n - r.count, r.px, cache[Hash(r.px) := r.px]))
  {
    hide ReadChunk, Hash, Repeat;
  }

  /** A turn of the loop moves one chunk's pixels from what is to be decoded to what is done. */
  lemma {:induction false} DecodeTurn(data: seq<Byte>, at: nat, n: nat, px: Pixel, cache: Cache, done: seq<Pixel>)
    requires at < |data| && n > 0 && Decode(data[at..], n, px, cache).Decoded?
    ensures var r := ReadChunk(data[at..], px, cache);
      && r.Read? && r.count <= n && at + r.size <= |data|
      && Prepend(done, Decode(data[at..], n, px, cache))
      == Prepend(done + Repeat(r.px, r.count),
                 Decode(data[at + r.size..], n - r.count, r.px, cache[Hash(r.px) := r.px]))
  {
    hide ReadChunk, Hash, Repeat, Decode;
    var r := ReadChunk(data[at..], px, cache);
    DecodeStep(data[at..], n, px, cache);
    assert data[at..][r.size..] == data[at + r.size..];
    PrependTwice(done, Repeat(r.px, r.count),
                 Decode(data[at + r.size..], n - r.count, r.px, cache[Hash(r.px) := r.px]));
  }

  /** One turn of the loop: read a chunk, write its pixels, remember the colour. */
  method DecodeChunk(data: seq<Byte>, at: nat, px: Pixel, cache: array<Pixel>, mem: array<Byte>, outIdx: nat,
                     ghost done: seq<Pixel>)
    returns (px': Pixel, count: nat, at': nat, outIdx': nat)
    requires cache.Length == 64 && at < |data| && ReadChunk(data[at..], px, cache[..]).Read?
    requires outIdx == 4 * |done| && Written(mem[..], done)
    requires 4 * (|done| + ReadChunk(data[at..], px, cache[..]).count) <= mem.Length
    modifies cache, mem
    ensures at < at' <= |data| && ReadChunk(data[at..], px, old(cache[..])) == Read(px', count, at' - at)
    ensures cache[..] == old(cache[..])[Hash(px') := px']
    ensures forall k :: 0 <= k < 64 ==> cache[k] == if InSlot(px', k) then px' else old(cache[k])
    ensures outIdx' == outIdx + 4 * count && Written(mem[..], done + Repeat(px', count))
  {
    hide ReadChunk, Hash, Written, Repeat, InSlot;
    px', count, at' := TakeChunk(data, at, px, cache);
    forall k ensures InSlot(px', k) <==> k == Hash(px') { OneSlot(px', k); }
    outIdx' := WritePixels(mem, outIdx, px', count, done);
    cache[Hash(px')] := px';
  }

  /** The decoder loop over `n` pixels. */
  method DecompressBody(data: seq<Byte>, n: nat) returns (mem: array<Byte>, end: nat)
    requires |data| >= 14 && Decode(data[14..], n, BLACK, StartCache()).Decoded?
    ensures var d := Decode(data[14..], n, BLACK, StartCache());
      mem.Length == 4 * n && Written(mem[..], d.pixels) && 14 <= end <= |data| && data[end..] == d.rest
    ensures fresh(mem)
  {
    hide ReadChunk, Hash, Written, Repeat, Decode, Prepend, StartCache;
    mem := new Byte[4 * n](i => 0);
    end := 14;
    var pixelCount, outIdx, px := 0, 0, BLACK;
    var cache := new Pixel[64](i => BLACK);
    StartIs(cache[..]);
    ghost var all, done := Decode(data[14..], n, BLACK, StartCache()), [];
    NothingWritten(mem[..]);
    PrependNothing(all);
    while pixelCount < n && end < |data|
      invariant 14 <= end <= |data| && pixelCount == |done| <= n && outIdx == 4 * pixelCount
      invariant Written(mem[..], done)
      invariant Prepend(done, Decode(data[end..], n - pixelCount, px, cache[..])) == all
      decreases n - pixelCount
    {
      PrependDecodes(done, Decode(data[end..], n - pixelCount, px, cache[..]));
      DecodeTurn(data, end, n - pixelCount, px, cache[..], done);
      var count;
      px, count, end, outIdx := DecodeChunk(data, end, px, cache, mem, outIdx, done);
      done := done + Repeat(px, count);
      pixelCount := pixelCount + count;
    }
    DecodeOver(data, end, n - pixelCount, px, cache[..], done);
    assert all == Decoded(done, data[end..]);
  }

  /** When the loop ends, nothing is left to decode. */
  lemma {:induction false} DecodeOver(data: seq<Byte>, end: nat, left: nat, px: Pixel, cache: Cache, done: seq<Pixel>)
    requires end <= |data| && (left == 0 || end == |data|)
    ensures Prepend(done, Decode(data[end..], left, px, cache)) == Decoded(done, data[end..])
  {
    hide Decode;
    assert Decode(data[end..], left, px, cache) == Decoded([], data[end..]) by {
      if left == 0 {
        DecodeNone(data[end..], px, cache);
      } else {
        assert data[end..] == [];
        DecodeEnds(left, px, cache);
      }
    }
    PrependEmpty(done, data[end..]);
  }

  lemma PrependEmpty(done: seq<Pixel>, rest: seq<Byte>)
    ensures Prepend(done, Decoded([], rest)) == Decoded(done, rest)
  {
    assert done + [] == done;
  }

  lemma PrependNothing(d: Decoded)
    ensures Prepend([], d) == d
  {
    if d.Decoded? { assert [] + d.pixels == d.pixels; }
  }

  lemma PrependDecodes(ps: seq<Pixel>, d: Decoded)
    ensures Prepend(ps, d).Decoded? ==> d.Decoded?
  {}

  lemma StartIs(cache: seq<Pixel>)
    requires |cache| == 64 && forall i :: 0 <= i < 64 ==> cache[i] == BLACK
    ensures cache == StartCache()
  {}

  lemma NothingWritten(mem: seq<Byte>)
    requires forall j :: 0 <= j < |mem| ==> mem[j] == 0
    ensures Written(mem, [])
  {}

  /** The decoder writes the decoded pixels and stops right behind their chunks. */
  method DecompressQoi(data: seq<Byte>, w: nat, h: nat) returns (mem: array<Byte>, end: nat)
    requires |data| >= 14 && Decode(data[14..], w * h, BLACK, StartCache()).Decoded?
    ensures var d := Decode(data[14..], w * h, BLACK, StartCache());
      mem.Length == 4 * (w * h) && Written(mem[..], d.pixels) && 14 <= end <= |data| && data[end..] == d.rest
  {
    mem, end := DecompressBody(data, w * h);
  }

  /** The encoder's stream for a decoder with any start history: it decodes to its source, up to the trailer, if
      and only if opaque black is in its slot from the start or the source survives without. */
  lemma {:induction false} StreamDecodesFrom(ps: seq<Pixel>, w: nat, h: nat, channels: nat, d: Cache)
    requires w < 0x8000_0000 && h < 0x8000_0000 && channels < 256
    ensures var data := Stream(ps, w, h, channels);
      |data| >= 14 && (Decode(data[14..], |ps|, BLACK, d) == Decoded(ps, TRAILER) <==> d[HOME] == BLACK || Survives(ps))
  {
    hide Decode, Concat, EncodeChunks, Survives;
    AnyStart(ps, d, TRAILER);
    assert Stream(ps, w, h, channels)[14..] == Concat(EncodeChunks(EncoderStart(), ps)) + TRAILER;
  }

  /** The repository's decoder starts with opaque black everywhere, so it reads every stream. */
  lemma {:induction false} StreamDecodes(ps: seq<Pixel>, w: nat, h: nat, channels: nat)
    requires w < 0x8000_0000 && h < 0x8000_0000 && channels < 256
    ensures var data := Stream(ps, w, h, channels);
      |data| >= 14 && Decode(data[14..], |ps|, BLACK, StartCache()) == Decoded(ps, TRAILER)
  {
    hide Decode, Stream;
    StreamDecodesFrom(ps, w, h, channels, StartCache());
  }

  /** The start of the QOI specification: every slot is transparent black. */
  function SpecCache(): (d: Cache)
    ensures forall i :: 0 <= i < 64 ==> d[i] == Pixel(0, 0, 0, 0)
  {
    seq(64, i => Pixel(0, 0, 0, 0))
  }

  /** A decoder that starts as the specification says reads the stream back exactly for the sources that survive. */
  lemma {:induction false} SpecStart(ps: seq<Pixel>, w: nat, h: nat, channels: nat)
    requires w < 0x8000_0000 && h < 0x8000_0000 && channels < 256
    ensures var data := Stream(ps, w, h, channels);
      |data| >= 14 && (Decode(data[14..], |ps|, BLACK, SpecCache()) == Decoded(ps, TRAILER) <==> Survives(ps))
  {
    hide Decode, Stream, Survives;
    StreamDecodesFrom(ps, w, h, channels, SpecCache());
  }

  /** A red pixel and a black one do not survive: such a decoder does not return them. */
  lemma {:induction false} RedBlackFails()
    ensures var ps := [Pixel(255, 0, 0, 255), BLACK]; var data := Stream(ps, 2, 1, 3);
      !Survives(ps) && |data| >= 14 && Decode(data[14..], 2, BLACK, SpecCache()) != Decoded(ps, TRAILER)
  {
    hide Decode, Stream;
    var ps := [Pixel(255, 0, 0, 255), BLACK];
    assert Hash(ps[0]) == 50 && Hash(ps[1]) == HOME;
    SpecStart(ps, 2, 1, 3);
  }

  /** Pixel `i` of the raw image in the memory: its red, green and blue byte and a padding byte. */
  ghost predicate PixelRestored(mem: seq<Byte>, raw: seq<Byte>, n: nat, channels: nat, i: nat)
    requires IsImage(raw, n, channels) && i < n && |mem| == 4 * n
  {
    PixelInRange(raw, n, channels, i);
    var o := i * channels;
    mem[4*i] == raw[o] && mem[4*i+1] == raw[o+1] && mem[4*i+2] == raw[o+2] && mem[4*i+3] == 255
  }

  ghost predicate Restored(mem: seq<Byte>, raw: seq<Byte>, n: nat, channels: nat)
    requires IsImage(raw, n, channels)
  {
    |mem| == 4 * n && forall i: nat :: i < n ==> PixelRestored(mem, raw, n, channels, i)
  }

  lemma {:induction false} WrittenRestores(mem: seq<Byte>, raw: seq<Byte>, n: nat, channels: nat)
    requires IsImage(raw, n, channels) && |mem| == 4 * n && Written(mem, PixelsOf(raw, n, channels))
    ensures Restored(mem, raw, n, channels)
  {
    var ps := PixelsOf(raw, n, channels);
    forall i: nat | i < n ensures PixelRestored(mem, raw, n, channels, i) {
      PixelInRange(raw, n, channels, i);
      assert ps[i] == PixelAt(raw, n, channels, i);
    }
  }

  /** Compress, then decompress: the picture comes back, the buffer is filled exactly, and the decoder
      stops right before the trailer. */
  method RoundTrip(raw: seq<Byte>, w: nat, h: nat, channels: nat) returns (mem: array<Byte>, end: nat)
    requires w < 0x8000_0000 && h < 0x8000_0000 && IsImage(raw, w * h, channels)
    ensures mem.Length == 4 * (w * h) && Restored(mem[..], raw, w * h, channels)
    ensures end + 8 == |Stream(PixelsOf(raw, w * h, channels), w, h, channels)|
  {
    var data := CompressToQoi(raw, w, h, channels);
    StreamDecodes(PixelsOf(raw, w * h, channels), w, h, channels);
    mem, end := DecompressQoi(data, w, h);
    assert |data[end..]| == 8;
    WrittenRestores(mem[..], raw, w * h, channels);
  }

  /** Length of the whole stream for an image of `n` pixels. */
  lemma StreamLength(raw: seq<Byte>, n: nat, w: nat, h: nat, channels: nat)
    requires w < 0x8000_0000 && h < 0x8000_0000 && IsImage(raw, n, channels)
    ensures |Stream(PixelsOf(raw, n, channels), w, h, channels)| <= 14 + n * (channels + 1) + 8
  {
    BodyLength(EncoderStart(), PixelsOf(raw, n, channels), channels);
  }

  /** The bytes between header and trailer. */
  function Body(stream: seq<Byte>): seq<Byte>
    requires |stream| >= 22
  {
    stream[14..|stream| - 8]
  }

  /** Every stream is uniquely parseable: cut by its tags alone, its body gives exactly the chunks that were
      written, each of the size its tag announces; no two consecutive index chunks are the same, and a run that
      another follows is full. */
  lemma {:induction false} StreamParses(ps: seq<Pixel>, w: nat, h: nat, channels: nat)
    requires w < 0x8000_0000 && h < 0x8000_0000 && channels < 256
    ensures var stream := Stream(ps, w, h, channels);
      && |stream| >= 22
      && var cs := Chunks(Body(stream));
         && cs == EncodeChunks(EncoderStart(), ps) && NoTwins(cs) && FullRuns(cs)
         && forall i :: 0 <= i < |cs| ==> WellTagged(cs[i])
  {
    hide Concat, EncodeChunks, Chunks, WellTagged, NoTwins, FullRuns, BigEndian;
    RunsAreFull(EncoderStart(), ps);
    var cs := EncodeChunks(EncoderStart(), ps);
    EncodedTagged(EncoderStart(), ps);
    ChunksOfConcat(cs);
    StartRemembers();
    NoRepeatedIndex(EncoderStart(), ps);
    assert Body(Stream(ps, w, h, channels)) == Concat(cs);
  }

  lemma StartRemembers()
    ensures Remembered(EncoderStart().prev, EncoderStart().cache) && EncoderStart().run < 62
  {}
}
