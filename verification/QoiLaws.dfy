/** What the chunks say, in the numbers of their bytes and of the colours: slots, differences and runs. */
module QoiLaws {
  import opened Arithmetic
  import opened Collections
  import opened Bytes
  import opened QoiFormat

  // ------------------------------------------------------------------ the history

  /** The colour belongs in slot `k`. */
  ghost predicate InSlot(p: Pixel, k: int) {
    0 <= k < 64 && (3 * p.r + 5 * p.g + 7 * p.b + 11 * p.a - k) % 64 == 0
  }

  lemma OneSlot(p: Pixel, k: int)
    ensures InSlot(p, k) <==> k == Hash(p)
  {
    var x := 3 * p.r + 5 * p.g + 7 * p.b + 11 * p.a;
    if InSlot(p, k) { DivMod(x, (x - k) / 64, k, 64); }
    if k == Hash(p) { DivMod(x - k, x / 64, 0, 64); }
  }

  /** The registers after the pixels `ps`. */
  function StateAfter(ps: seq<Pixel>): (st: EncoderState)
    ensures st.run < 62 && st.prev == if ps == [] then BLACK else ps[|ps|-1]
  {
    if ps == [] then EncoderStart() else NextState(StateAfter(ps[..|ps|-1]), ps[|ps|-1])
  }

  /** The last of the pixels in slot `k`; opaque black if there is none. */
  ghost function LastIn(ps: seq<Pixel>, k: nat): Pixel {
    if ps == [] then BLACK
    else if InSlot(ps[|ps|-1], k) then ps[|ps|-1]
    else LastIn(ps[..|ps|-1], k)
  }

  /** The encoder's history holds, in each slot, the last pixel of that slot. */
  lemma {:induction false} HistoryIsLast(ps: seq<Pixel>, k: nat)
    requires k < 64
    ensures StateAfter(ps).cache[k] == LastIn(ps, k) && Remembered(StateAfter(ps).prev, StateAfter(ps).cache)
  {
    hide Hash, InSlot;
    if ps == [] {
      StartRemembered();
    } else {
      HistoryIsLast(ps[..|ps|-1], k);
      OneSlot(ps[|ps|-1], k);
    }
  }

  lemma StartRemembered()
    ensures Remembered(BLACK, StartCache())
  {}

  /** The chunks that the pixels `ps` have added to the stream. */
  function Sent(ps: seq<Pixel>): seq<Chunk> {
    if ps == [] then []
    else Sent(ps[..|ps|-1]) + EncodePixel(StateAfter(ps[..|ps|-1]), ps[|ps|-1])
  }

  /** From any pixel on the stream continues with the registers that the pixels before it left. */
  lemma {:induction false} StreamGoesOn(ps: seq<Pixel>, k: nat)
    requires k <= |ps|
    ensures EncodeChunks(EncoderStart(), ps) == Sent(ps[..k]) + EncodeChunks(StateAfter(ps[..k]), ps[k..])
  {
    hide EncodePixel, NextState, EncoderStart;
    if k == 0 {
      assert ps[..0] == [] && ps[0..] == ps;
    } else {
      StreamGoesOn(ps, k - 1);
      assert ps[k-1..][0] == ps[k-1] && ps[k-1..][1..] == ps[k..];
      assert ps[..k][..k-1] == ps[..k-1] && ps[..k][k-1] == ps[k-1];
      Associates(Sent(ps[..k-1]), EncodePixel(StateAfter(ps[..k-1]), ps[k-1]),
                 EncodeChunks(StateAfter(ps[..k]), ps[k..]));
    }
  }

  // --------------------------------------------------------------- the differences

  /** Equal as 8-bit values. */
  ghost predicate Same8(x: int, y: int) { (x - y) % 256 == 0 }

  /** The colour chunk `c` leads from the colour `prev` to `cur`: sections QOI_OP_RGB to QOI_OP_LUMA of the QOI
      specification 1.0. */
  ghost predicate Means(c: Chunk, prev: Pixel, cur: Pixel) {
    if |c| == 1 then
      && 0x40 <= c[0] < 0x80 && cur.a == prev.a
      && Same8(cur.r - prev.r, c[0] as int / 16 % 4 - 2) && Same8(cur.g - prev.g, c[0] as int / 4 % 4 - 2)
      && Same8(cur.b - prev.b, c[0] as int % 4 - 2)
    else if |c| == 2 then
      && 0x80 <= c[0] < 0xC0 && cur.a == prev.a
      && var dg := c[0] as int - 0xA0;
         && Same8(cur.g - prev.g, dg)
         && Same8(cur.r - prev.r, dg + c[1] as int / 16 - 8) && Same8(cur.b - prev.b, dg + c[1] as int % 16 - 8)
    else if |c| == 4 then c == [0xFE, cur.r, cur.g, cur.b] && cur.a == prev.a
    else c == [0xFF, cur.r, cur.g, cur.b, cur.a]
  }

  lemma Signed8Same(x: int)
    ensures forall y :: -128 <= y < 128 && Same8(x, y) ==> y == Signed8(x)
  {}

  lemma {:induction false} DiffMeans(prev: Pixel, cur: Pixel)
    requires |ColourChunk(prev, cur)| == 1
    ensures Means(ColourChunk(prev, cur), prev, cur)
  {
    hide Signed8, Same8;
    var dr, dg, db := Signed8(cur.r - prev.r), Signed8(cur.g - prev.g), Signed8(cur.b - prev.b);
    DiffDigits(dr + 2, dg + 2, db + 2);
    SignedSame(cur.r - prev.r);
    SignedSame(cur.g - prev.g);
    SignedSame(cur.b - prev.b);
  }

  lemma {:induction false} LumaMeans(prev: Pixel, cur: Pixel)
    requires |ColourChunk(prev, cur)| == 2
    ensures Means(ColourChunk(prev, cur), prev, cur)
  {
    hide Signed8, Same8;
    var dg := Signed8(cur.g - prev.g);
    LumaDigits(Signed8(Signed8(cur.r - prev.r) - dg) + 8, Signed8(Signed8(cur.b - prev.b) - dg) + 8);
    SignedSame(cur.g - prev.g);
    LumaSame(cur.r - prev.r, dg);
    LumaSame(cur.b - prev.b, dg);
  }

  /** The encoder's choice leads to the colour. */
  lemma {:induction false} ColourMeans(prev: Pixel, cur: Pixel)
    ensures Means(ColourChunk(prev, cur), prev, cur)
  {
    hide Signed8, Same8;
    var c := ColourChunk(prev, cur);
    if |c| == 1 { DiffMeans(prev, cur); } else if |c| == 2 { LumaMeans(prev, cur); }
  }

  lemma SignedSame(x: int)
    ensures Same8(x, Signed8(x))
  {}

  lemma LumaSame(d: int, dg: int)
    ensures Same8(d, dg + Signed8(Signed8(d) - dg))
  {}

  /** No chunk that leads to the colour is shorter than the encoder's. */
  lemma {:induction false} ColourIsShortest(prev: Pixel, cur: Pixel, c: Chunk)
    requires Means(c, prev, cur)
    ensures |ColourChunk(prev, cur)| <= |c|
  {
    hide Signed8, Same8;
    Signed8Same(cur.r - prev.r);
    Signed8Same(cur.g - prev.g);
    Signed8Same(cur.b - prev.b);
    if |c| == 2 {
      var dg := c[0] as int - 0xA0;
      LumaFits(cur.r - prev.r, dg, c[1] as int / 16 - 8);
      LumaFits(cur.b - prev.b, dg, c[1] as int % 16 - 8);
    }
  }

  lemma LumaFits(d: int, dg: int, x: int)
    requires Same8(d, dg + x) && -8 <= x < 8
    ensures Signed8(Signed8(d) - dg) == x
  {}

  /** The decoder reads every chunk that leads to a colour as that colour, and nothing else. */
  lemma {:induction false} ReadMeans(c: Chunk, more: seq<Byte>, prev: Pixel, cur: Pixel, cache: Cache)
    requires |c| == 1 || |c| == 2 || |c| == 4 || |c| == 5
    requires WellTagged(c) && c[0] >= 0x40 && !(0xC0 <= c[0] < 0xFE)
    ensures Means(c, prev, cur) <==> ReadChunk(c + more, prev, cache) == Read(cur, 1, |c|)
  {
    hide Wrap8, Same8;
    var d := c + more;
    assert forall i :: 0 <= i < |c| ==> d[i] == c[i];
    if |c| == 1 {
      DiffSame(prev.r, cur.r, c[0] as int / 16 % 4 - 2);
      DiffSame(prev.g, cur.g, c[0] as int / 4 % 4 - 2);
      DiffSame(prev.b, cur.b, c[0] as int % 4 - 2);
    } else if |c| == 2 {
      var dg := c[0] as int - 0xA0;
      DiffSame(prev.g, cur.g, dg);
      DiffSame(prev.r, cur.r, dg + c[1] as int / 16 - 8);
      DiffSame(prev.b, cur.b, dg + c[1] as int % 16 - 8);
    }
  }

  lemma DiffSame(p: Byte, c: Byte, d: int)
    ensures Wrap8(p + d) == c <==> Same8(c - p, d)
  {}

  // -------------------------------------------------------------------- the chunks

  /** How a pixel that differs from the one before is written: as an index of its slot exactly if the last pixel
      of that slot has its colour, else as a shortest difference. */
  lemma {:induction false} FreshChunk(ps: seq<Pixel>, cur: Pixel, k: nat)
    requires k < 64 && InSlot(cur, k) && cur != StateAfter(ps).prev
    ensures var cs := EncodePixel(StateAfter(ps), cur);
      && cs != []
      && var c := cs[|cs|-1];
         if LastIn(ps, k) == cur then c == [k]
         else Means(c, StateAfter(ps).prev, cur) && forall d :: Means(d, StateAfter(ps).prev, cur) ==> |c| <= |d|
  {
    hide Means, InSlot, Hash, ColourChunk;
    var st := StateAfter(ps);
    OneSlot(cur, k);
    HistoryIsLast(ps, k);
    ColourMeans(st.prev, cur);
    forall d | Means(d, st.prev, cur) ensures |ColourChunk(st.prev, cur)| <= |d| { ColourIsShortest(st.prev, cur, d); }
  }

  /** What one turn of the decoder does to its history: the colour goes into its slot, every other slot stays. */
  lemma {:induction false} DecodeRemembers(data: seq<Byte>, n: nat, px: Pixel, cache: Cache, after: Cache)
    requires n > 0 && data != []
    requires var r := ReadChunk(data, px, cache);
      r.Read? && r.count <= n && forall k :: 0 <= k < 64 ==> after[k] == if InSlot(r.px, k) then r.px else cache[k]
    ensures var r := ReadChunk(data, px, cache);
      Decode(data, n, px, cache)
        == Prepend(Repeat(r.px, r.count), Decode(data[r.size..], n - r.count, r.px, after))
  {
    hide ReadChunk, InSlot, Hash;
    var r := ReadChunk(data, px, cache);
    forall k | 0 <= k < 64 ensures after[k] == cache[Hash(r.px) := r.px][k] { OneSlot(r.px, k); }
    assert after == cache[Hash(r.px) := r.px];
  }

  /** The pixel before the first one is opaque black: an image of one such pixel is a run. */
  lemma BlackStarts()
    ensures EncodeChunks(EncoderStart(), [Pixel(0, 0, 0, 255)]) == [[0xC0]]
  {
    assert EncodePixel(EncoderStart(), Pixel(0, 0, 0, 255)) == [];
  }

  // ---------------------------------------------------------------------- the runs

  predicate IsRun(c: Chunk) { |c| == 1 && 0xC0 <= c[0] < 0xFE }

  /** A run that is followed by another is as long as a run can be. */
  ghost predicate FullRuns(cs: seq<Chunk>) {
    forall i :: 0 <= i < |cs| - 1 && IsRun(cs[i]) && IsRun(cs[i+1]) ==> cs[i] == [0xFD]
  }

  lemma RunsJoin(a: seq<Chunk>, b: seq<Chunk>)
    requires FullRuns(a) && FullRuns(b)
    requires a != [] && IsRun(a[|a|-1]) ==> a[|a|-1] == [0xFD]
    ensures FullRuns(a + b)
  {
    var cs := a + b;
    forall i | 0 <= i < |cs| - 1 && IsRun(cs[i]) && IsRun(cs[i+1]) ensures cs[i] == [0xFD] {
      if i + 1 < |a| { assert IsRun(a[i]) && IsRun(a[i+1]); }
      else if i >= |a| { assert b[i-|a|] == cs[i] && b[i+1-|a|] == cs[i+1]; }
    }
  }

  lemma {:induction false} PixelRuns(st: EncoderState, cur: Pixel)
    requires st.run < 62
    ensures var cs := EncodePixel(st, cur);
      FullRuns(cs) && (cs != [] && IsRun(cs[|cs|-1]) ==> cs[|cs|-1] == [0xFD])
  {
    hide Hash, ColourChunk;
    ColourTagged(st.prev, cur);
  }

  /** In every stream, runs are as long as they can be. */
  lemma {:induction false} RunsAreFull(st: EncoderState, ps: seq<Pixel>)
    requires st.run < 62
    ensures FullRuns(EncodeChunks(st, ps))
    decreases |ps|
  {
    hide EncodePixel, FullRuns, IsRun, Hash;
    if ps == [] {
      FlushRuns(st.run);
    } else {
      RunsAreFull(NextState(st, ps[0]), ps[1..]);
      PixelRuns(st, ps[0]);
      RunsJoin(EncodePixel(st, ps[0]), EncodeChunks(NextState(st, ps[0]), ps[1..]));
    }
  }

  lemma FlushRuns(run: nat)
    requires run <= 62
    ensures FullRuns(Flush(run))
  {}
}
