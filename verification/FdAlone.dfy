/** What one `retain` or `release` does from start to end when no other handle takes a step meanwhile: which slot
    of the probe order it picks, and what it leaves there. */
module FdAlone {
  import opened FdRegistry

  /** The state after up to `k` steps of the operation on `h`. */
  function Solo(s: State, n: nat, h: HandleId, k: nat): State
    decreases k
  {
    if k == 0 || !Enabled(s, n, Step(h)) then s else Solo(Apply(s, n, Step(h)), n, h, k - 1)
  }

  /** The operation on `h` stands at phase `p` for descriptor `f`, over a registry of `n` slots. */
  ghost predicate Stands(s: State, n: nat, h: HandleId, f: int, p: Phase) {
    |s.slots| == n > 0 && h in s.handles && s.handles[h] == Handle(f, p)
  }

  /** What the slot at distance `d` from the home slot of `f` holds. */
  function FdAt(slots: seq<Slot>, f: int, d: nat): int
    requires slots != []
  {
    slots[(f + d) % |slots|].fd
  }

  /** None of the slots at distance `i` up to `j` holds `f`. */
  ghost predicate Foreign(slots: seq<Slot>, f: int, i: nat, j: nat)
    requires slots != []
  {
    forall d: nat {:trigger FdAt(slots, f, d)} :: i <= d < j ==> FdAt(slots, f, d) != f
  }

  /** Nor is any of them unused. */
  ghost predicate Taken(slots: seq<Slot>, f: int, i: nat, j: nat)
    requires slots != []
  {
    forall d: nat {:trigger FdAt(slots, f, d)} :: i <= d < j ==> FdAt(slots, f, d) != f && FdAt(slots, f, d) != -1
  }

  // ------------------------------------------------------------------- single steps

  lemma {:induction false} SoloStep(s: State, n: nat, h: HandleId, k: nat)
    requires k > 0 && Enabled(s, n, Step(h))
    ensures Solo(s, n, h, k) == Solo(Apply(s, n, Step(h)), n, h, k - 1)
  {
    hide Enabled, Apply;
  }

  lemma SoloNone(s: State, n: nat, h: HandleId)
    ensures Solo(s, n, h, 0) == s
  {}

  lemma ScanOnce(s: State, n: nat, h: HandleId, f: int, src: HandleId, i: nat)
    requires Stands(s, n, h, f, Scan(src, i))
    ensures Enabled(s, n, Step(h))
    ensures Apply(s, n, Step(h)) ==
      if FdAt(s.slots, f, i) == f then At(s, h, Bump(src, (f + i) % n))
      else if FdAt(s.slots, f, i) == -1 || i + 1 >= n then At(s, h, Claim(src, 0)) else At(s, h, Scan(src, i + 1))
  {}

  lemma ClaimOnce(s: State, n: nat, h: HandleId, f: int, src: HandleId, i: nat)
    requires Stands(s, n, h, f, Claim(src, i)) && FdAt(s.slots, f, i) != f
    ensures Enabled(s, n, Step(h))
    ensures Apply(s, n, Step(h)) ==
      var k := (f + i) % n;
      if FdAt(s.slots, f, i) == -1 then At(s.(slots := s.slots[k := s.slots[k].(fd := f)]), h, Start(src, k))
      else if i + 1 >= n then At(s, h, Ready) else At(s, h, Claim(src, i + 1))
  {}

  lemma SeekOnce(s: State, n: nat, h: HandleId, f: int, closing: bool, i: nat)
    requires Stands(s, n, h, f, Seek(i, closing))
    ensures Enabled(s, n, Step(h))
    ensures Apply(s, n, Step(h)) ==
      if FdAt(s.slots, f, i) == f then At(s, h, Take((f + i) % n, closing))
      else if i + 1 >= n then Emptied(s, h) else At(s, h, Seek(i + 1, closing))
  {}

  // ---------------------------------------------------------------------- the loops

  lemma {:induction false} ScanPasses(s: State, n: nat, h: HandleId, f: int, src: HandleId, i: nat, j: nat, k: nat)
    requires Stands(s, n, h, f, Scan(src, i)) && i <= j < n && Taken(s.slots, f, i, j) && k >= j - i
    ensures Solo(s, n, h, k) == Solo(At(s, h, Scan(src, j)), n, h, k - (j - i))
    decreases j - i
  {
    hide Solo, Enabled, Apply, FdAt;
    if i < j {
      ScanOnce(s, n, h, f, src, i);
      SoloStep(s, n, h, k);
      ScanPasses(At(s, h, Scan(src, i + 1)), n, h, f, src, i + 1, j, k - 1);
      assert At(At(s, h, Scan(src, i + 1)), h, Scan(src, j)) == At(s, h, Scan(src, j));
    } else {
      assert At(s, h, Scan(src, j)) == s;
    }
  }

  lemma {:induction false} ClaimPasses(s: State, n: nat, h: HandleId, f: int, src: HandleId, i: nat, j: nat, k: nat)
    requires Stands(s, n, h, f, Claim(src, i)) && i <= j < n && Taken(s.slots, f, i, j) && k >= j - i
    ensures Solo(s, n, h, k) == Solo(At(s, h, Claim(src, j)), n, h, k - (j - i))
    decreases j - i
  {
    hide Solo, Enabled, Apply, FdAt;
    if i < j {
      ClaimOnce(s, n, h, f, src, i);
      SoloStep(s, n, h, k);
      ClaimPasses(At(s, h, Claim(src, i + 1)), n, h, f, src, i + 1, j, k - 1);
      assert At(At(s, h, Claim(src, i + 1)), h, Claim(src, j)) == At(s, h, Claim(src, j));
    } else {
      assert At(s, h, Claim(src, j)) == s;
    }
  }

  lemma {:induction false} SeekPasses(s: State, n: nat, h: HandleId, f: int, closing: bool, i: nat, j: nat, k: nat)
    requires Stands(s, n, h, f, Seek(i, closing)) && i <= j < n && Foreign(s.slots, f, i, j) && k >= j - i
    ensures Solo(s, n, h, k) == Solo(At(s, h, Seek(j, closing)), n, h, k - (j - i))
    decreases j - i
  {
    hide Solo, Enabled, Apply, FdAt;
    if i < j {
      SeekOnce(s, n, h, f, closing, i);
      SoloStep(s, n, h, k);
      SeekPasses(At(s, h, Seek(i + 1, closing)), n, h, f, closing, i + 1, j, k - 1);
      assert At(At(s, h, Seek(i + 1, closing)), h, Seek(j, closing)) == At(s, h, Seek(j, closing));
    } else {
      assert At(s, h, Seek(j, closing)) == s;
    }
  }

  lemma {:induction false} BumpOnce(s: State, n: nat, h: HandleId, f: int, src: HandleId, k: nat)
    requires Stands(s, n, h, f, Bump(src, k)) && k < n && s.slots[k].fd == f
    ensures Solo(s, n, h, 1) == s.(slots := s.slots[k := Slot(f, s.slots[k].count + 1)],
                                   handles := s.handles[h := Handle(f, Ready)])
  {
    SoloStep(s, n, h, 1);
    SoloNone(Apply(s, n, Step(h)), n, h);
    hide Solo;
  }

  // ------------------------------------------------------------------ the operations

  /** A retain that meets its descriptor before any unused slot adds one there, and changes nothing else. */
  lemma {:induction false} RetainFinds(s: State, n: nat, h: HandleId, f: int, src: HandleId, d: nat)
    requires Stands(s, n, h, f, Scan(src, 0)) && d < n && Taken(s.slots, f, 0, d) && s.slots[(f + d) % n].fd == f
    ensures var k := (f + d) % n;
      Solo(s, n, h, d + 2) == s.(slots := s.slots[k := Slot(f, s.slots[k].count + 1)],
                                 handles := s.handles[h := Handle(f, Ready)])
  {
    hide Solo, Enabled, Apply;
    ScanPasses(s, n, h, f, src, 0, d, d + 2);
    var t := At(s, h, Scan(src, d));
    ScanOnce(t, n, h, f, src, d);
    SoloStep(t, n, h, 2);
    BumpOnce(At(t, h, Bump(src, (f + d) % n)), n, h, f, src, (f + d) % n);
  }

  lemma {:induction false} StartOnce(s: State, n: nat, h: HandleId, f: int, src: HandleId, k: nat)
    requires Stands(s, n, h, f, Start(src, k)) && k < n && s.slots[k].fd == f
    ensures Solo(s, n, h, 1) == s.(slots := s.slots[k := Slot(f, 1)], handles := s.handles[h := Handle(f, Ready)])
  {
    SoloStep(s, n, h, 1);
    SoloNone(Apply(s, n, Step(h)), n, h);
    hide Solo;
  }

  /** The claiming half: the first unused slot is taken with a count of one. */
  lemma {:induction false} ClaimTakes(s: State, n: nat, h: HandleId, f: int, src: HandleId, d: nat)
    requires Stands(s, n, h, f, Claim(src, 0)) && f != -1
    requires d < n && Taken(s.slots, f, 0, d) && s.slots[(f + d) % n].fd == -1
    ensures var k := (f + d) % n;
      Solo(s, n, h, d + 2) == s.(slots := s.slots[k := Slot(f, 1)], handles := s.handles[h := Handle(f, Ready)])
  {
    hide Solo, Enabled, Apply;
    var k := (f + d) % n;
    ClaimPasses(s, n, h, f, src, 0, d, d + 2);
    var t := At(s, h, Claim(src, d));
    ClaimOnce(t, n, h, f, src, d);
    SoloStep(t, n, h, 2);
    StartOnce(Apply(t, n, Step(h)), n, h, f, src, k);
  }

  /** A retain that meets an unused slot first takes it with a count of one, wherever its descriptor may stand
      behind. */
  lemma {:induction false} RetainClaims(s: State, n: nat, h: HandleId, f: int, src: HandleId, d: nat)
    requires Stands(s, n, h, f, Scan(src, 0)) && f != -1
    requires d < n && Taken(s.slots, f, 0, d) && s.slots[(f + d) % n].fd == -1
    ensures var k := (f + d) % n;
      Solo(s, n, h, 2 * d + 3) == s.(slots := s.slots[k := Slot(f, 1)], handles := s.handles[h := Handle(f, Ready)])
  {
    hide Solo, Enabled, Apply;
    ScanPasses(s, n, h, f, src, 0, d, 2 * d + 3);
    var t := At(s, h, Scan(src, d));
    ScanOnce(t, n, h, f, src, d);
    SoloStep(t, n, h, d + 3);
    ClaimTakes(At(t, h, Claim(src, 0)), n, h, f, src, d);
  }

  /** A retain over a full registry without its descriptor counts nothing. */
  lemma {:induction false} RetainFull(s: State, n: nat, h: HandleId, f: int, src: HandleId)
    requires Stands(s, n, h, f, Scan(src, 0)) && Taken(s.slots, f, 0, n)
    ensures Solo(s, n, h, 2 * n) == At(s, h, Ready)
  {
    hide Solo, Enabled, Apply, FdAt;
    ScanPasses(s, n, h, f, src, 0, n - 1, 2 * n);
    var t := At(s, h, Scan(src, n - 1));
    ScanOnce(t, n, h, f, src, n - 1);
    SoloStep(t, n, h, n + 1);
    var u := At(t, h, Claim(src, 0));
    ClaimPasses(u, n, h, f, src, 0, n - 1, n);
    var v := At(u, h, Claim(src, n - 1));
    ClaimOnce(v, n, h, f, src, n - 1);
    SoloStep(v, n, h, 1);
    SoloNone(Apply(v, n, Step(h)), n, h);
  }

  lemma {:induction false} TakeEnds(s: State, n: nat, h: HandleId, f: int, k: nat)
    requires Stands(s, n, h, f, Take(k, true)) && k < n && s.slots[k].fd == f
    ensures var c := s.slots[k].count;
      Solo(s, n, h, 2) ==
        if c == 1 then s.(slots := s.slots[k := Slot(-1, 0)], handles := s.handles[h := Handle(f, Closing)])
        else s.(slots := s.slots[k := Slot(f, c - 1)], handles := s.handles - {h})
  {
    SoloStep(s, n, h, 2);
    var t := Apply(s, n, Step(h));
    if s.slots[k].count == 1 {
      SoloStep(t, n, h, 1);
      SoloNone(Apply(t, n, Step(h)), n, h);
    } else {
      assert !Enabled(t, n, Step(h));
    }
  }

  /** A release takes one from the first slot that holds its descriptor; the count that reaches zero unregisters
      it, and only then is the handle about to close it. */
  lemma {:induction false} ReleaseFinds(s: State, n: nat, h: HandleId, f: int, d: nat)
    requires Stands(s, n, h, f, Seek(0, true)) && d < n && Foreign(s.slots, f, 0, d) && s.slots[(f + d) % n].fd == f
    ensures var k := (f + d) % n; var c := s.slots[k].count;
      Solo(s, n, h, d + 3) ==
        if c == 1 then s.(slots := s.slots[k := Slot(-1, 0)], handles := s.handles[h := Handle(f, Closing)])
        else s.(slots := s.slots[k := Slot(f, c - 1)], handles := s.handles - {h})
  {
    hide Solo, Enabled, Apply;
    var k := (f + d) % n;
    SeekPasses(s, n, h, f, true, 0, d, d + 3);
    var t := At(s, h, Seek(d, true));
    SeekOnce(t, n, h, f, true, d);
    SoloStep(t, n, h, 3);
    var u := At(t, h, Take(k, true));
    TakeEnds(u, n, h, f, k);
    assert u.handles - {h} == s.handles - {h};
  }

  /** A release that finds its descriptor nowhere changes nothing and closes nothing. */
  lemma {:induction false} ReleaseMisses(s: State, n: nat, h: HandleId, f: int, closing: bool)
    requires Stands(s, n, h, f, Seek(0, closing)) && Foreign(s.slots, f, 0, n)
    ensures Solo(s, n, h, n) == s.(handles := s.handles - {h})
  {
    hide Solo, Enabled, Apply, FdAt;
    SeekPasses(s, n, h, f, closing, 0, n - 1, n);
    var t := At(s, h, Seek(n - 1, closing));
    SeekOnce(t, n, h, f, closing, n - 1);
    SoloStep(t, n, h, 1);
    SoloNone(Apply(t, n, Step(h)), n, h);
    assert t.handles - {h} == s.handles - {h};
  }
}
