/** QOI chunks as the repository's encoder writes them and its decoder reads them. */
module QoiFormat {
  import opened Collections
  import opened Bytes

  datatype Pixel = Pixel(r: Byte, g: Byte, b: Byte, a: Byte)

  const BLACK: Pixel := Pixel(0, 0, 0, 255)

  /** Slot of a colour in the 64-entry history. */
  function Hash(p: Pixel): (h: nat)
    ensures h < 64
  {
    (p.r * 3 + p.g * 5 + p.b * 7 + p.a * 11) % 64
  }

  type Cache = c: seq<Pixel> | |c| == 64
    witness seq(64, i => BLACK)

  /** Every slot starts as opaque black. */
  function StartCache(): (c: Cache)
    ensures forall i :: 0 <= i < 64 ==> c[i] == BLACK
  {
    seq(64, i => BLACK)
  }

  /** Value of an 8-bit signed variable after assigning `x`. */
  function Signed8(x: int): (y: int)
    ensures -128 <= y < 128
  {
    (x + 128) % 256 - 128
  }

  /** Value of an 8-bit unsigned variable after assigning `x`. */
  function Wrap8(x: int): Byte { x % 256 }

  type Chunk = seq<Byte>

  // ---------------------------------------------------------------- encoder

  function RunChunk(n: nat): Chunk
    requires 1 <= n <= 62
  {
    [0xC0 + (n - 1)]
  }

  /** The chunk for a pixel that is not in the history. */
  function ColourChunk(prev: Pixel, cur: Pixel): (c: Chunk) {
    if cur.a != prev.a then [0xFF, cur.r, cur.g, cur.b, cur.a]
    else
      var dr, dg, db := Signed8(cur.r - prev.r), Signed8(cur.g - prev.g), Signed8(cur.b - prev.b);
      var drdg, dbdg := Signed8(dr - dg), Signed8(db - dg);
      if -2 <= dr <= 1 && -2 <= dg <= 1 && -2 <= db <= 1 then
        [0x40 + (dr + 2) * 16 + (dg + 2) * 4 + (db + 2)]
      else if -32 <= dg <= 31 && -8 <= drdg <= 7 && -8 <= dbdg <= 7 then
        [0x80 + (dg + 32), (drdg + 8) * 16 + (dbdg + 8)]
      else [0xFE, cur.r, cur.g, cur.b]
  }

  datatype EncoderState = EncoderState(prev: Pixel, cache: Cache, run: nat)

  function EncoderStart(): EncoderState { EncoderState(BLACK, StartCache(), 0) }

  /** Pending run, as a chunk. */
  function Flush(run: nat): seq<Chunk>
    requires run <= 62
  {
    if run > 0 then [RunChunk(run)] else []
  }

  /** A slot of the history if it holds the pixel, else a colour chunk. */
  function PixelChunk(st: EncoderState, cur: Pixel): Chunk {
    if st.cache[Hash(cur)] == cur then [Hash(cur)] else ColourChunk(st.prev, cur)
  }

  /** What one pixel adds to the stream. */
  function EncodePixel(st: EncoderState, cur: Pixel): seq<Chunk>
    requires st.run < 62
  {
    if cur == st.prev then (if st.run + 1 == 62 then [RunChunk(62)] else [])
    else Flush(st.run) + [PixelChunk(st, cur)]
  }

  /** The registers after one pixel; the history changes only when a colour chunk was written. */
  function NextState(st: EncoderState, cur: Pixel): EncoderState
    requires st.run < 62
  {
    if cur == st.prev then st.(run := if st.run + 1 == 62 then 0 else st.run + 1)
    else EncoderState(cur, if st.cache[Hash(cur)] == cur then st.cache else st.cache[Hash(cur) := cur], 0)
  }

  function EncodeChunks(st: EncoderState, ps: seq<Pixel>): seq<Chunk>
    requires st.run < 62
    decreases |ps|
  {
    if ps == [] then Flush(st.run)
    else EncodePixel(st, ps[0]) + EncodeChunks(NextState(st, ps[0]), ps[1..])
  }

  // ---------------------------------------------------------------- decoder

  datatype Read = Short | Read(px: Pixel, count: nat, size: nat)

  /** One turn of the decoder: the new pixel, how often it is written, and the bytes used. `Short` when
      the chunk runs past the end of the data. */
  function ReadChunk(data: seq<Byte>, px: Pixel, cache: Cache): (r: Read)
    ensures r.Read? ==> 1 <= r.size <= |data| && 1 <= r.count <= 64
  {
    if data == [] then Short
    else
      var b1 := data[0];
      if b1 == 0xFE then
        if |data| < 4 then Short else Read(Pixel(data[1], data[2], data[3], px.a), 1, 4)
      else if b1 == 0xFF then
        if |data| < 5 then Short else Read(Pixel(data[1], data[2], data[3], data[4]), 1, 5)
      else if b1 < 0x40 then Read(cache[b1], 1, 1)
      else if b1 < 0x80 then
        Read(Pixel(Wrap8(px.r + (b1 / 16) % 4 - 2), Wrap8(px.g + (b1 / 4) % 4 - 2), Wrap8(px.b + b1 % 4 - 2), px.a),
             1, 1)
      else if b1 < 0xC0 then
        if |data| < 2 then Short
        else
          var b2, dg := data[1] as int, b1 as int % 64 - 32;
          Read(Pixel(Wrap8(px.r + dg - 8 + b2 / 16), Wrap8(px.g + dg), Wrap8(px.b + dg - 8 + b2 % 16), px.a), 1, 2)
      else Read(px, b1 % 64 + 1, 1)
  }

  /** The decoded pixels and the bytes behind them, fewer pixels than asked for if the data ends between
      chunks; failure if a chunk runs past the data or a run past the image. */
  datatype Decoded = Malformed | Decoded(pixels: seq<Pixel>, rest: seq<Byte>)

  function Decode(data: seq<Byte>, n: nat, px: Pixel, cache: Cache): (d: Decoded)
    ensures d.Decoded? ==> |d.pixels| <= n && (|d.pixels| < n ==> d.rest == [])
    decreases n
  {
    if n == 0 || data == [] then Decoded([], data)
    else
      var r := ReadChunk(data, px, cache);
      if r.Short? || r.count > n then Malformed
      else
        var d := Decode(data[r.size..], n - r.count, r.px, cache[Hash(r.px) := r.px]);
        if d.Malformed? then Malformed else Decoded(Repeat(r.px, r.count) + d.pixels, d.rest)
  }

  // -------------------------------------------------------------- round trip

  lemma Rebuild(p: Byte, c: Byte)
    ensures Wrap8(p + Signed8(c - p)) == c
  {}

  lemma DiffDigits(x: nat, y: nat, z: nat)
    requires x < 4 && y < 4 && z < 4
    ensures var v := 0x40 + x * 16 + y * 4 + z; (v / 16) % 4 == x && (v / 4) % 4 == y && v % 4 == z && 0x40 <= v < 0x80
  {}

  lemma {:induction false} DiffReads(prev: Pixel, cur: Pixel, cache: Cache, more: seq<Byte>)
    requires cur.a == prev.a
    requires -2 <= Signed8(cur.r - prev.r) <= 1 && -2 <= Signed8(cur.g - prev.g) <= 1
    requires -2 <= Signed8(cur.b - prev.b) <= 1
    ensures ReadChunk(ColourChunk(prev, cur) + more, prev, cache) == Read(cur, 1, 1)
  {
    hide Signed8, Wrap8;
    DiffDigits(Signed8(cur.r - prev.r) + 2, Signed8(cur.g - prev.g) + 2, Signed8(cur.b - prev.b) + 2);
    Rebuild(prev.r, cur.r);
    Rebuild(prev.g, cur.g);
    Rebuild(prev.b, cur.b);
  }

  lemma LumaRebuild(p: Byte, c: Byte, dg: int)
    ensures Wrap8(p + dg - 8 + (Signed8(Signed8(c - p) - dg) + 8)) == c
  {}

  lemma LumaDigits(x: nat, y: nat)
    requires x < 16 && y < 16
    ensures (x * 16 + y) / 16 == x && (x * 16 + y) % 16 == y && x * 16 + y < 256
  {}

  lemma {:induction false} LumaReads(prev: Pixel, cur: Pixel, cache: Cache, more: seq<Byte>)
    requires cur.a == prev.a && |ColourChunk(prev, cur)| == 2
    ensures ReadChunk(ColourChunk(prev, cur) + more, prev, cache) == Read(cur, 1, 2)
  {
    hide Signed8, Wrap8;
    var dg := Signed8(cur.g - prev.g);
    LumaDigits(Signed8(Signed8(cur.r - prev.r) - dg) + 8, Signed8(Signed8(cur.b - prev.b) - dg) + 8);
    LumaRebuild(prev.r, cur.r, dg);
    LumaRebuild(prev.b, cur.b, dg);
    Rebuild(prev.g, cur.g);
  }

  /** Reading a colour chunk gives back the colour. */
  lemma {:induction false} ColourChunkReads(prev: Pixel, cur: Pixel, cache: Cache, more: seq<Byte>)
    ensures var c := ColourChunk(prev, cur);
      |c| >= 1 && ReadChunk(c + more, prev, cache) == Read(cur, 1, |c|) && (c + more)[|c|..] == more
  {
    hide Signed8;
    var c := ColourChunk(prev, cur);
    assert (c + more)[|c|..] == more;
    if |c| == 1 { DiffReads(prev, cur, cache, more); }
    else if |c| == 2 { LumaReads(prev, cur, cache, more); }
  }

  lemma HitReads(slot: nat, more: seq<Byte>, px: Pixel, cache: Cache)
    requires slot < 64
    ensures ReadChunk([slot] + more, px, cache) == Read(cache[slot], 1, 1)
  {}

  lemma RunReads(run: nat, more: seq<Byte>, px: Pixel, cache: Cache)
    requires 1 <= run <= 62
    ensures ReadChunk(RunChunk(run) + more, px, cache) == Read(px, run, 1)
  {}

  function Prepend(ps: seq<Pixel>, d: Decoded): Decoded {
    if d.Malformed? then Malformed else Decoded(ps + d.pixels, d.rest)
  }

  /** One chunk of the encoder is one turn of the decoder. */
  lemma {:induction false} DecodeOne(c: Chunk, more: seq<Byte>, n: nat, px: Pixel, cache: Cache, r: Read)
    requires r.Read? && r.size == |c| && 1 <= r.count <= n && ReadChunk(c + more, px, cache) == r
    ensures Decode(c + more, n, px, cache)
         == Prepend(Repeat(r.px, r.count), Decode(more, n - r.count, r.px, cache[Hash(r.px) := r.px]))
  {
    hide ReadChunk, Hash, Repeat;
    assert (c + more)[r.size..] == more;
  }

  /** What is left over is the end of the data. */
  lemma {:induction false} DecodeRest(data: seq<Byte>, n: nat, px: Pixel, cache: Cache)
    ensures var d := Decode(data, n, px, cache);
      d.Decoded? ==> |d.rest| <= |data| && d.rest == data[|data| - |d.rest|..]
    decreases n
  {
    hide ReadChunk, Hash, Repeat;
    var r := ReadChunk(data, px, cache);
    if n > 0 && data != [] && r.Read? && r.count <= n {
      DecodeRest(data[r.size..], n - r.count, r.px, cache[Hash(r.px) := r.px]);
    }
  }

  lemma DecodeNone(data: seq<Byte>, px: Pixel, cache: Cache)
    ensures Decode(data, 0, px, cache) == Decoded([], data)
  {}

  lemma DecodeEnds(n: nat, px: Pixel, cache: Cache)
    ensures Decode([], n, px, cache) == Decoded([], [])
  {}

  lemma {:induction false} ConcatAppend(a: seq<Chunk>, b: seq<Chunk>)
    ensures Concat(a + b) == Concat(a) + Concat(b)
  {
    if a == [] {
      assert a + b == b;
    } else {
      ConcatAppend(a[1..], b);
      assert a + b == [a[0]] + (a[1..] + b);
      ConcatFirst(a[0], a[1..] + b);
      Associates(a[0], Concat(a[1..]), Concat(b));
    }
  }

  lemma ConcatOne(c: Chunk)
    ensures Concat([c]) == c
  {
    assert Concat([c]) == c + Concat([c][1..]);
  }

  /** The last pixel seen is in its slot of the history. */
  ghost predicate Remembered(px: Pixel, cache: Cache) { cache[Hash(px)] == px }

  // --------------------------------------------------- shape of the stream

  /** The size of a chunk shows in its first byte. */
  function TagSize(tag: Byte): nat {
    if tag == 0xFF then 5 else if tag == 0xFE then 4 else if 0x80 <= tag < 0xC0 then 2 else 1
  }

  predicate WellTagged(c: Chunk) { c != [] && |c| == TagSize(c[0]) }

  /** Cutting bytes into chunks by their first bytes alone. */
  function Chunks(bytes: seq<Byte>): seq<Chunk>
    decreases |bytes|
  {
    if bytes == [] then []
    else if |bytes| <= TagSize(bytes[0]) then [bytes]
    else [bytes[..TagSize(bytes[0])]] + Chunks(bytes[TagSize(bytes[0])..])
  }

  /** The bytes of well-tagged chunks determine the chunks. */
  lemma {:induction false} ChunksOfConcat(cs: seq<Chunk>)
    requires forall i :: 0 <= i < |cs| ==> WellTagged(cs[i])
    ensures Chunks(Concat(cs)) == cs
  {
    hide TagSize;
    if cs != [] {
      var c, rest := cs[0], Concat(cs[1..]);
      ChunksOfConcat(cs[1..]);
      assert WellTagged(c) && (c + rest)[0] == c[0];
      assert (c + rest)[..|c|] == c && (c + rest)[|c|..] == rest;
      assert rest == [] ==> c + rest == c;
      assert cs == [c] + cs[1..];
    }
  }

  /** Two well-tagged lists of chunks with the same bytes are the same list. */
  lemma {:induction false} UniqueParse(cs: seq<Chunk>, ds: seq<Chunk>)
    requires forall i :: 0 <= i < |cs| ==> WellTagged(cs[i])
    requires forall i :: 0 <= i < |ds| ==> WellTagged(ds[i])
    ensures Concat(cs) == Concat(ds) <==> cs == ds
  {
    hide WellTagged, Chunks;
    ChunksOfConcat(cs);
    ChunksOfConcat(ds);
  }

  /** The decoder uses exactly the bytes that the tag announces. */
  lemma {:induction false} ReadsTagged(data: seq<Byte>, px: Pixel, cache: Cache)
    requires data != []
    ensures var r := ReadChunk(data, px, cache);
      if |data| < TagSize(data[0]) then r.Short? else r.Read? && r.size == TagSize(data[0])
  {
    hide Wrap8;
  }

  /** A run chunk is a byte of its own range: no run reads as one of the two colour tags above it. */
  lemma RunTag(n: nat)
    requires 1 <= n <= 62
    ensures WellTagged(RunChunk(n)) && 0xC0 <= RunChunk(n)[0] < 0xFE && RunChunk(n)[0] - 0xC0 + 1 == n
  {}

  lemma {:induction false} ColourTagged(prev: Pixel, cur: Pixel)
    ensures WellTagged(ColourChunk(prev, cur)) && !(0xC0 <= ColourChunk(prev, cur)[0] < 0xFE)
  {
    hide Signed8;
  }

  /** Every chunk the encoder writes announces its size. */
  lemma {:induction false} EncodedTagged(st: EncoderState, ps: seq<Pixel>)
    requires st.run < 62
    ensures forall i :: 0 <= i < |EncodeChunks(st, ps)| ==> WellTagged(EncodeChunks(st, ps)[i])
    decreases |ps|
  {
    hide Hash, ColourChunk, WellTagged, RunChunk;
    if st.run > 0 { RunTag(st.run); }
    if ps != [] {
      RunTag(62);
      IndexTagged(ps[0]);
      ColourTagged(st.prev, ps[0]);
      EncodedTagged(NextState(st, ps[0]), ps[1..]);
    }
  }

  lemma {:induction false} IndexTagged(cur: Pixel)
    ensures WellTagged([Hash(cur)])
  {
    hide Hash;
  }

  predicate IsIndex(c: Chunk) { |c| == 1 && c[0] < 0x40 }

  /** A fresh index chunk never names the slot of the last pixel. */
  lemma {:induction false} FirstIndexIsNew(st: EncoderState, ps: seq<Pixel>)
    requires st.run < 62 && Remembered(st.prev, st.cache)
    ensures var cs := EncodeChunks(st, ps); cs != [] && IsIndex(cs[0]) ==> cs[0][0] != Hash(st.prev)
    decreases |ps|
  {
    hide Hash, ColourChunk;
    if ps != [] {
      var next := NextState(st, ps[0]);
      if ps[0] == st.prev {
        FirstIndexIsNew(next, ps[1..]);
        if st.run + 1 < 62 { assert EncodeChunks(st, ps) == EncodeChunks(next, ps[1..]); }
      } else if st.run == 0 {
        assert EncodeChunks(st, ps)[0] == PixelChunk(st, ps[0]);
        ColourIsNoIndex(st.prev, ps[0]);
      }
    }
  }

  lemma ColourIsNoIndex(prev: Pixel, cur: Pixel)
    ensures !IsIndex(ColourChunk(prev, cur)) && 1 <= |ColourChunk(prev, cur)| <= (if cur.a == prev.a then 4 else 5)
  {}

  ghost predicate NoTwins(cs: seq<Chunk>) {
    forall i :: 0 <= i < |cs| - 1 && IsIndex(cs[i]) && IsIndex(cs[i+1]) ==> cs[i] != cs[i+1]
  }

  lemma TwinsJoin(a: seq<Chunk>, b: seq<Chunk>)
    requires NoTwins(a) && NoTwins(b)
    requires a != [] && b != [] && IsIndex(a[|a|-1]) && IsIndex(b[0]) ==> a[|a|-1] != b[0]
    ensures NoTwins(a + b)
  {
    var cs := a + b;
    forall i | 0 <= i < |cs| - 1 && IsIndex(cs[i]) && IsIndex(cs[i+1]) ensures cs[i] != cs[i+1] {
      if i + 1 < |a| { assert a[i] != a[i+1]; }
      else if i >= |a| { assert b[i-|a|] == cs[i] && b[i+1-|a|] == cs[i+1]; }
    }
  }

  /** No two consecutive index chunks name the same slot. */
  lemma {:induction false} NoRepeatedIndex(st: EncoderState, ps: seq<Pixel>)
    requires st.run < 62 && Remembered(st.prev, st.cache)
    ensures NoTwins(EncodeChunks(st, ps))
    decreases |ps|
  {
    hide Hash, ColourChunk;
    if ps != [] {
      var cur, next := ps[0], NextState(st, ps[0]);
      NoRepeatedIndex(next, ps[1..]);
      FirstIndexIsNew(next, ps[1..]);
      ColourIsNoIndex(st.prev, cur);
      assert NoTwins(EncodePixel(st, cur));
      TwinsJoin(EncodePixel(st, cur), EncodeChunks(next, ps[1..]));
    }
  }

  /** At most `channels + 1` bytes a pixel. */
  lemma {:induction false} BodyLength(st: EncoderState, ps: seq<Pixel>, channels: nat)
    requires st.run < 62 && (channels == 3 || channels == 4)
    requires channels == 3 ==> st.prev.a == 255 && forall i :: 0 <= i < |ps| ==> ps[i].a == 255
    ensures |Concat(EncodeChunks(st, ps))| <= (if st.run > 0 then 1 else 0) + (channels + 1) * |ps|
    decreases |ps|
  {
    hide Hash, ColourChunk;
    if ps == [] {
      if st.run > 0 { ConcatOne(RunChunk(st.run)); }
    } else {
      var cur, next := ps[0], NextState(st, ps[0]);
      assert forall i :: 0 <= i < |ps| - 1 ==> ps[1..][i] == ps[i+1];
      BodyLength(next, ps[1..], channels);
      ConcatAppend(EncodePixel(st, cur), EncodeChunks(next, ps[1..]));
      PixelLength(st, cur);
      assert (channels + 1) * |ps| == (channels + 1) * (|ps| - 1) + (channels + 1);
    }
  }

  lemma {:induction false} PixelLength(st: EncoderState, cur: Pixel)
    requires st.run < 62
    ensures var d := |Concat(EncodePixel(st, cur))|;
      if cur == st.prev then d == (if st.run + 1 == 62 then 1 else 0)
      else d <= (if st.run > 0 then 1 else 0) + (if cur.a == st.prev.a then 4 else 5)
  {
    hide Hash, ColourChunk;
    if cur == st.prev {
      if st.run + 1 == 62 { ConcatOne(RunChunk(62)); }
    } else {
      var c := PixelChunk(st, cur);
      ConcatAppend(Flush(st.run), [c]);
      ConcatOne(c);
      if st.run > 0 { ConcatOne(RunChunk(st.run)); }
      ColourIsNoIndex(st.prev, cur);
    }
  }
}
