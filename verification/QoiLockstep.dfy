/** The encoder and a decoder in lockstep, from any history the decoder may start with. */
module QoiLockstep {
  import opened Collections
  import opened Bytes
  import opened QoiFormat

  // ------------------------------------------------------- one chunk, read back

  /** Reading a run back: the decoder remembers the colour once more. */
  lemma {:induction false} RunDecodes(run: nat, more: seq<Byte>, n: nat, px: Pixel, d: Cache)
    requires 1 <= run <= 62 && run <= n
    ensures Decode(RunChunk(run) + more, n, px, d)
         == Prepend(Repeat(px, run), Decode(more, n - run, px, d[Hash(px) := px]))
  {
    hide ReadChunk, Decode, Repeat, Hash;
    RunReads(run, more, px, d);
    DecodeOne(RunChunk(run), more, n, px, d, Read(px, run, 1));
  }

  /** What a decoder with history `d` makes of the chunk of a fresh pixel. */
  function Made(st: EncoderState, cur: Pixel, d: Cache): Pixel {
    if st.cache[Hash(cur)] == cur then d[Hash(cur)] else cur
  }

  /** Reading the chunk of a fresh pixel back. */
  lemma {:induction false} PixelDecodes(st: EncoderState, cur: Pixel, more: seq<Byte>, n: nat, d: Cache)
    requires st.run < 62 && cur != st.prev && n >= 1
    ensures var x := Made(st, cur, d);
      Decode(PixelChunk(st, cur) + more, n, st.prev, d) == Prepend([x], Decode(more, n - 1, x, d[Hash(x) := x]))
  {
    hide ReadChunk, Decode, Hash, ColourChunk;
    var c, x := PixelChunk(st, cur), Made(st, cur, d);
    if st.cache[Hash(cur)] == cur {
      HitReads(Hash(cur), more, st.prev, d);
    } else {
      ColourChunkReads(st.prev, cur, d, more);
    }
    DecodeOne(c, more, n, st.prev, d, Read(x, 1, |c|));
    assert Repeat(x, 1) == [x];
  }

  lemma RepeatMore(px: Pixel, n: nat, ps: seq<Pixel>)
    requires ps != [] && ps[0] == px
    ensures Repeat(px, n + 1) + ps[1..] == Repeat(px, n) + ps
  {
    assert Repeat(px, n + 1) + ps[1..] == Repeat(px, n) + ([px] + ps[1..]);
  }

  lemma PrependInjective(p: seq<Pixel>, a: Decoded, b: Decoded)
    ensures Prepend(p, a) == Prepend(p, b) <==> a == b
  {
    if a.Decoded? && b.Decoded? && p + a.pixels == p + b.pixels {
      assert a.pixels == (p + a.pixels)[|p|..] && b.pixels == (p + b.pixels)[|p|..];
    }
  }

  // ---------------------------------------------------------------- one pixel

  /** The decoder with history `d` turns the rest of the encoder's stream into the pending pixels and the
      remaining source, and stops right behind it. */
  ghost predicate InStep(st: EncoderState, d: Cache, ps: seq<Pixel>, tail: seq<Byte>)
    requires st.run < 62
  {
    Decode(Concat(EncodeChunks(st, ps)) + tail, st.run + |ps|, st.prev, d)
      == Decoded(Repeat(st.prev, st.run) + ps, tail)
  }

  /** The decoder's history once it has read the pending run. */
  function Caught(st: EncoderState, d: Cache): Cache {
    if st.run > 0 then d[Hash(st.prev) := st.prev] else d
  }

  /** The decoder's history after the chunks that one more pixel adds to the stream. */
  function NextHistory(st: EncoderState, d: Cache, cur: Pixel): Cache {
    if cur != st.prev then Caught(st, d)[Hash(cur) := cur]
    else if st.run + 1 == 62 then d[Hash(cur) := cur] else d
  }

  /** Without pixels left only the pending run is read. */
  lemma {:induction false} EndInStep(st: EncoderState, d: Cache, tail: seq<Byte>)
    requires st.run < 62
    ensures InStep(st, d, [], tail)
  {
    hide Decode, Repeat, Hash;
    DecodeNone(tail, st.prev, d);
    DecodeNone(tail, st.prev, d[Hash(st.prev) := st.prev]);
    if st.run > 0 {
      ConcatOne(RunChunk(st.run));
      RunDecodes(st.run, tail, st.run, st.prev, d);
    } else {
      assert Concat([]) + tail == tail;
      assert Repeat(st.prev, 0) == [];
    }
  }

  /** The bytes of one more pixel of a run. */
  lemma {:induction false} RunBytes(st: EncoderState, ps: seq<Pixel>, tail: seq<Byte>)
    requires st.run < 62 && ps != [] && ps[0] == st.prev
    ensures var more := Concat(EncodeChunks(NextState(st, ps[0]), ps[1..])) + tail;
      Concat(EncodeChunks(st, ps)) + tail == if st.run + 1 == 62 then RunChunk(62) + more else more
  {
    hide Hash, Concat, RunChunk;
    var rest := EncodeChunks(NextState(st, ps[0]), ps[1..]);
    if st.run + 1 == 62 {
      ConcatAppend([RunChunk(62)], rest);
      ConcatOne(RunChunk(62));
      Regroup([], RunChunk(62), Concat(rest), tail);
    } else {
      assert [] + rest == rest;
    }
  }

  /** One more pixel of a run keeps the two in step if and only if they were. */
  lemma {:induction false} RunInStep(st: EncoderState, d: Cache, ps: seq<Pixel>, tail: seq<Byte>)
    requires st.run < 62 && ps != [] && ps[0] == st.prev
    ensures InStep(st, d, ps, tail) <==> InStep(NextState(st, ps[0]), NextHistory(st, d, ps[0]), ps[1..], tail)
  {
    hide Decode, Repeat, Concat, EncodeChunks, RunChunk, Hash;
    RunBytes(st, ps, tail);
    RepeatMore(st.prev, st.run, ps);
    if st.run + 1 == 62 {
      var more, d' := Concat(EncodeChunks(NextState(st, ps[0]), ps[1..])) + tail, d[Hash(st.prev) := st.prev];
      RunDecodes(62, more, st.run + |ps|, st.prev, d);
      NoneMore(st.prev, ps[1..]);
      PrependInjective(Repeat(st.prev, 62), Decode(more, |ps| - 1, st.prev, d'), Decoded(ps[1..], tail));
    }
  }

  lemma {:induction false} FreshNext(st: EncoderState, cur: Pixel)
    requires st.run < 62 && cur != st.prev
    ensures NextState(st, cur).run == 0 && NextState(st, cur).prev == cur
  {
    hide Hash;
  }

  lemma NoneMore(px: Pixel, ps: seq<Pixel>)
    ensures Repeat(px, 0) + ps == ps
  {}

  lemma {:induction false} FreshBytes(st: EncoderState, ps: seq<Pixel>, tail: seq<Byte>)
    requires st.run < 62 && ps != [] && ps[0] != st.prev
    ensures var more := PixelChunk(st, ps[0]) + (Concat(EncodeChunks(NextState(st, ps[0]), ps[1..])) + tail);
      Concat(EncodeChunks(st, ps)) + tail == if st.run > 0 then RunChunk(st.run) + more else more
  {
    hide Hash, ColourChunk, PixelChunk, Concat;
    var c, rest := PixelChunk(st, ps[0]), EncodeChunks(NextState(st, ps[0]), ps[1..]);
    ConcatAppend(Flush(st.run) + [c], rest);
    ConcatAppend(Flush(st.run), [c]);
    ConcatOne(c);
    if st.run > 0 {
      ConcatOne(RunChunk(st.run));
      Regroup(RunChunk(st.run), c, Concat(rest), tail);
    } else {
      assert Flush(st.run) + [c] == [c];
      Regroup([], c, Concat(rest), tail);
    }
  }

  lemma Regroup(a: seq<Byte>, b: seq<Byte>, c: seq<Byte>, d: seq<Byte>)
    ensures ((a + b) + c) + d == a + (b + (c + d)) && [] + (b + (c + d)) == b + (c + d)
    ensures [] + b == b
  {}

  lemma PrependTwice(a: seq<Pixel>, b: seq<Pixel>, d: Decoded)
    ensures Prepend(a, Prepend(b, d)) == Prepend(a + b, d)
  {
    if d.Decoded? { assert a + (b + d.pixels) == (a + b) + d.pixels; }
  }

  /** The pending run, if any, and the chunk of a fresh pixel: what the decoder makes of them. */
  lemma {:induction false} FreshDecodes(st: EncoderState, d: Cache, ps: seq<Pixel>, tail: seq<Byte>)
    requires st.run < 62 && ps != [] && ps[0] != st.prev
    ensures var x := Made(st, ps[0], Caught(st, d));
      var more := Concat(EncodeChunks(NextState(st, ps[0]), ps[1..])) + tail;
      Decode(Concat(EncodeChunks(st, ps)) + tail, st.run + |ps|, st.prev, d)
        == Prepend(Repeat(st.prev, st.run) + [x], Decode(more, |ps| - 1, x, Caught(st, d)[Hash(x) := x]))
  {
    hide Decode, Repeat, Hash, Concat, EncodeChunks, PixelChunk, RunChunk, NextState, Made, Prepend;
    FreshNext(st, ps[0]);
    FreshBytes(st, ps, tail);
    var more := Concat(EncodeChunks(NextState(st, ps[0]), ps[1..])) + tail;
    var c := Caught(st, d);
    var x := Made(st, ps[0], c);
    PixelDecodes(st, ps[0], more, |ps|, c);
    PrependTwice(Repeat(st.prev, st.run), [x], Decode(more, |ps| - 1, x, c[Hash(x) := x]));
    if st.run > 0 {
      RunDecodes(st.run, PixelChunk(st, ps[0]) + more, st.run + |ps|, st.prev, d);
    } else {
      NoneMore(st.prev, [x]);
    }
  }

  /** After the same pixels: one more pixel and the rest are right if and only if each of them is. */
  lemma {:induction false} OnePixelMore(run: seq<Pixel>, x: Pixel, got: Decoded, ps: seq<Pixel>, tail: seq<Byte>)
    requires ps != []
    ensures Prepend(run + [x], got) == Decoded(run + ps, tail) <==> x == ps[0] && got == Decoded(ps[1..], tail)
  {
    assert run + ps == (run + [ps[0]]) + ps[1..];
    PrependInjective(run + [ps[0]], got, Decoded(ps[1..], tail));
    if x != ps[0] && got.Decoded? {
      assert ((run + [x]) + got.pixels)[|run|] == x && (run + ps)[|run|] == ps[0];
    }
  }

  /** A fresh pixel that the decoder makes keeps the two in step if and only if they were; one that it does not
      make puts them out of step. */
  lemma {:induction false} FreshInStep(st: EncoderState, d: Cache, ps: seq<Pixel>, tail: seq<Byte>)
    requires st.run < 62 && ps != [] && ps[0] != st.prev
    ensures Made(st, ps[0], Caught(st, d)) == ps[0] ==>
      (InStep(st, d, ps, tail) <==> InStep(NextState(st, ps[0]), NextHistory(st, d, ps[0]), ps[1..], tail))
    ensures Made(st, ps[0], Caught(st, d)) != ps[0] ==> !InStep(st, d, ps, tail)
  {
    hide Decode, Prepend, Repeat, Hash, Concat, EncodeChunks, Made, Caught, NextState;
    FreshNext(st, ps[0]);
    FreshDecodes(st, d, ps, tail);
    NoneMore(ps[0], ps[1..]);
    var c, x, more := Caught(st, d), Made(st, ps[0], Caught(st, d)), EncodeChunks(NextState(st, ps[0]), ps[1..]);
    var got := Decode(Concat(more) + tail, |ps| - 1, x, c[Hash(x) := x]);
    OnePixelMore(Repeat(st.prev, st.run), x, got, ps, tail);
  }

  // --------------------------------------------------------------- the histories

  /** The slot of opaque black. */
  const HOME: nat := 53

  lemma HomeOfBlack()
    ensures Hash(BLACK) == HOME
  {}

  /** The decoder holds every colour the encoder has stored; slots the encoder never wrote may differ. */
  ghost predicate Trails(e: Cache, d: Cache) { forall k :: 0 <= k < 64 && e[k] != BLACK ==> d[k] == e[k] }

  /** After the pending run, the decoder holds what the encoder stored, the same in the slot of black, and the
      last pixel. */
  ghost predicate Synced(st: EncoderState, d: Cache) {
    var c := Caught(st, d);
    Trails(st.cache, c) && c[HOME] == st.cache[HOME] && Remembered(st.prev, c)
  }

  lemma {:induction false} SyncedNext(st: EncoderState, d: Cache, cur: Pixel)
    requires st.run < 62 && Synced(st, d)
    ensures cur != st.prev ==> Made(st, cur, Caught(st, d)) == cur
    ensures Synced(NextState(st, cur), NextHistory(st, d, cur))
  {
    HomeOfBlack();
    hide Hash;
  }

  /** Lockstep: in sync, the decoder reads the rest of the source. */
  lemma {:induction false} Lockstep(st: EncoderState, d: Cache, ps: seq<Pixel>, tail: seq<Byte>)
    requires st.run < 62 && Synced(st, d)
    ensures InStep(st, d, ps, tail)
    decreases |ps|
  {
    hide InStep, Synced, NextHistory, Made;
    if ps == [] {
      EndInStep(st, d, tail);
    } else {
      SyncedNext(st, d, ps[0]);
      Lockstep(NextState(st, ps[0]), NextHistory(st, d, ps[0]), ps[1..], tail);
      if ps[0] == st.prev { RunInStep(st, d, ps, tail); } else { FreshInStep(st, d, ps, tail); }
    }
  }

  /** The slot of black still holds what each program started with, and black has not been seen, except as the
      colour before the first pixel. */
  ghost predicate Unsynced(st: EncoderState, d: Cache) {
    var c := Caught(st, d);
    && Trails(st.cache, c) && st.cache[HOME] == BLACK && c[HOME] != BLACK
    && ((Hash(st.prev) != HOME && Remembered(st.prev, c)) || (st.prev == BLACK && st.run == 0))
  }

  /** A pixel of another slot changes nothing in the slot of black. */
  lemma {:induction false} UnsyncedNext(st: EncoderState, d: Cache, cur: Pixel)
    requires st.run < 62 && Unsynced(st, d) && Hash(cur) != HOME
    ensures cur != st.prev ==> Made(st, cur, Caught(st, d)) == cur
    ensures Unsynced(NextState(st, cur), NextHistory(st, d, cur)) && cur != BLACK
  {
    HomeOfBlack();
    hide Hash;
  }

  /** Another colour of the slot, or black in front of everything, brings the two in sync. */
  lemma {:induction false} Settles(st: EncoderState, d: Cache, cur: Pixel)
    requires st.run < 62 && Unsynced(st, d) && Hash(cur) == HOME && (cur != BLACK || st.prev == BLACK)
    ensures cur != st.prev ==> Made(st, cur, Caught(st, d)) == cur
    ensures Synced(NextState(st, cur), NextHistory(st, d, cur))
  {
    HomeOfBlack();
    hide Hash;
  }

  /** Black after other colours is written as an index of a slot that the decoder has never filled. */
  lemma {:induction false} Clashes(st: EncoderState, d: Cache)
    requires st.run < 62 && Unsynced(st, d) && st.prev != BLACK
    ensures Made(st, BLACK, Caught(st, d)) != BLACK
  {
    HomeOfBlack();
    hide Hash;
  }

  /** The first pixel in the slot of black. */
  function FirstHome(ps: seq<Pixel>): (i: nat)
    ensures i <= |ps| && (i < |ps| ==> Hash(ps[i]) == HOME) && forall j :: 0 <= j < i ==> Hash(ps[j]) != HOME
  {
    if ps == [] || Hash(ps[0]) == HOME then 0 else 1 + FirstHome(ps[1..])
  }

  /** No pixel is in the slot of black, or the first that is is not black, or it is the first of the image. */
  predicate Survives(ps: seq<Pixel>) {
    var i := FirstHome(ps); i == |ps| || ps[i] != BLACK || i == 0
  }

  lemma {:induction false} UnsyncedRun(st: EncoderState, d: Cache, ps: seq<Pixel>, tail: seq<Byte>)
    requires st.run < 62 && Unsynced(st, d)
    ensures var i := FirstHome(ps);
      InStep(st, d, ps, tail) <==> i == |ps| || ps[i] != BLACK || (i == 0 && st.prev == BLACK)
    decreases |ps|
  {
    hide InStep, Synced, Unsynced, NextHistory, Made, Hash;
    HomeOfBlack();
    if ps == [] {
      EndInStep(st, d, tail);
    } else {
      var cur, next, d' := ps[0], NextState(st, ps[0]), NextHistory(st, d, ps[0]);
      if cur == st.prev { RunInStep(st, d, ps, tail); } else { FreshInStep(st, d, ps, tail); }
      if Hash(cur) != HOME {
        UnsyncedNext(st, d, cur);
        UnsyncedRun(next, d', ps[1..], tail);
      } else if cur != BLACK || st.prev == BLACK {
        Settles(st, d, cur);
        Lockstep(next, d', ps[1..], tail);
      } else {
        Clashes(st, d);
      }
    }
  }

  /** From whatever history the decoder starts: it reads the encoder's stream back if and only if it starts with
      opaque black in the slot of opaque black, or the source survives without. */
  lemma {:induction false} AnyStart(ps: seq<Pixel>, d: Cache, tail: seq<Byte>)
    ensures Decode(Concat(EncodeChunks(EncoderStart(), ps)) + tail, |ps|, BLACK, d) == Decoded(ps, tail)
       <==> d[HOME] == BLACK || Survives(ps)
  {
    hide Decode, Concat, EncodeChunks, Repeat, Hash;
    HomeOfBlack();
    NoneMore(BLACK, ps);
    if d[HOME] == BLACK {
      Lockstep(EncoderStart(), d, ps, tail);
    } else {
      UnsyncedRun(EncoderStart(), d, ps, tail);
    }
  }
}
