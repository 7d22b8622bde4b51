/** What goes wrong when two descriptors share a home slot: freeing a slot with -1 makes the probe loop of
    `retain` stop early, the second descriptor is registered twice, and dropping the second registration
    closes it under a live handle. */
module FdCollision {
  import opened FdRegistry
  import opened FdRuns
  import opened Arithmetic

  lemma {:induction false} RunsConcat(s: State, n: nat, a: seq<Action>, b: seq<Action>)
    requires Runs(s, n, a) && Runs(After(s, n, a), n, b)
    ensures Runs(s, n, a + b) && After(s, n, a + b) == After(After(s, n, a), n, b)
    decreases |a|
  {
    hide Runs, After, Enabled, Apply;
    if a == [] {
      RunsNone(s, n);
      assert a + b == b;
    } else {
      RunsCons(s, n, a, a[0], a[1..]);
      RunsConcat(Apply(s, n, a[0]), n, a[1..], b);
      assert a + b == [a[0]] + (a[1..] + b);
      RunsCons(s, n, a + b, a[0], a[1..] + b);
    }
  }

  lemma RunsNone(s: State, n: nat)
    ensures Runs(s, n, []) && After(s, n, []) == s
  {}

  lemma {:induction false} RunsCons(s: State, n: nat, acts: seq<Action>, a: Action, rest: seq<Action>)
    requires acts == [a] + rest
    ensures Runs(s, n, acts) <==> Enabled(s, n, a) && Runs(Apply(s, n, a), n, rest)
    ensures Runs(s, n, acts) ==> After(s, n, acts) == After(Apply(s, n, a), n, rest)
  {
    hide Enabled, Apply;
  }

  lemma RunsOne(s: State, n: nat, a: Action)
    requires Enabled(s, n, a)
    ensures Runs(s, n, [a]) && After(s, n, [a]) == Apply(s, n, a)
  {
    assert [a][1..] == [];
    assert Runs(Apply(s, n, a), n, []);
  }

  /** Extend a run by one action. */
  lemma RunsMore(s: State, n: nat, acts: seq<Action>, a: Action)
    requires Runs(s, n, acts) && Enabled(After(s, n, acts), n, a)
    ensures Runs(s, n, acts + [a]) && After(s, n, acts + [a]) == Apply(After(s, n, acts), n, a)
  {
    RunsOne(After(s, n, acts), n, a);
    RunsConcat(s, n, acts, [a]);
  }

  function With(s: State, k: nat, slot: Slot, h: HandleId, hd: Handle): State
    requires k < |s.slots|
  {
    s.(slots := s.slots[k := slot], handles := s.handles[h := hd])
  }

  /** The three steps of a retain that finds its home slot unused. */
  lemma {:induction false} RetainHome(s: State, n: nat, h: HandleId, src: HandleId) returns (acts: seq<Action>)
    requires |s.slots| == n > 0 && h in s.handles && s.handles[h].phase == Scan(src, 0)
    requires s.handles[h].fd >= 0 && s.slots[s.handles[h].fd % n].fd == EMPTY
    ensures forall i :: 0 <= i < |acts| ==> acts[i].Step?
    ensures Runs(s, n, acts)
    ensures var f := s.handles[h].fd; After(s, n, acts) == With(s, f % n, Slot(f, 1), h, Handle(f, Ready))
  {
    hide Runs, After;
    var f := s.handles[h].fd;
    var k := f % n;
    RunsOne(s, n, Step(h));
    var s1 := Apply(s, n, Step(h));
    assert s1 == At(s, h, Claim(src, 0));
    RunsMore(s, n, [Step(h)], Step(h));
    var s2 := Apply(s1, n, Step(h));
    assert s2 == With(s, k, Slot(f, s.slots[k].count), h, Handle(f, Start(src, k)));
    RunsMore(s, n, [Step(h)] + [Step(h)], Step(h));
    acts := [Step(h)] + [Step(h)] + [Step(h)];
    assert Apply(s2, n, Step(h)) == With(s, k, Slot(f, 1), h, Handle(f, Ready));
  }

  /** The steps of a reset that takes the last count at the home slot, up to the close. */
  lemma {:induction false} ResetToClose(s: State, n: nat, h: HandleId) returns (acts: seq<Action>)
    requires |s.slots| == n > 0 && Idle(s, h) && !Pinned(s, h)
    requires s.handles[h].fd >= 0 && s.slots[s.handles[h].fd % n] == Slot(s.handles[h].fd, 1)
    ensures forall i :: 0 <= i < |acts| ==> !acts[i].Open?
    ensures Runs(s, n, acts)
    ensures var f := s.handles[h].fd; After(s, n, acts) == With(s, f % n, Slot(EMPTY, 0), h, Handle(f, Closing))
  {
    hide Runs, After;
    var f := s.handles[h].fd;
    var k := f % n;
    RunsOne(s, n, Reset(h));
    acts := [Reset(h)];
    var s1 := At(s, h, Seek(0, true));
    RunsMore(s, n, acts, Step(h));
    acts := acts + [Step(h)];
    var s2 := Apply(s1, n, Step(h));
    assert s2 == At(s, h, Take(k, true));
    RunsMore(s, n, acts, Step(h));
    acts := acts + [Step(h)];
    var s3 := Apply(s2, n, Step(h));
    assert s3 == With(s, k, Slot(f, 0), h, Handle(f, Free(k, true)));
    RunsMore(s, n, acts, Step(h));
    acts := acts + [Step(h)];
    assert Apply(s3, n, Step(h)) == With(s, k, Slot(EMPTY, 0), h, Handle(f, Closing));
  }

  /** Whether a descriptor is shared does not depend on the phase of the one handle. */
  lemma SharedWith(s: State, k: nat, slot: Slot, h: HandleId, f: int, p: Phase)
    requires k < |s.slots|
    ensures SharedWithOther(With(s, k, slot, h, Handle(f, p)), h, f) <==> SharedWithOther(s, h, f)
  {
    var t := With(s, k, slot, h, Handle(f, p));
    assert forall g :: g != h ==>
      (g in t.handles <==> g in s.handles) && (g in s.handles ==> t.handles[g] == s.handles[g]);
    if g :| g in s.handles && g != h && s.handles[g].fd == f { assert t.handles[g].fd == f; }
    if g :| g in t.handles && g != h && t.handles[g].fd == f { assert s.handles[g].fd == f; }
  }

  /** The whole reset: the close is wrong exactly if the descriptor is not open or is shared. */
  lemma {:induction false} ResetHome(s: State, n: nat, h: HandleId) returns (acts: seq<Action>)
    requires |s.slots| == n > 0 && Idle(s, h) && !Pinned(s, h)
    requires s.handles[h].fd >= 0 && s.slots[s.handles[h].fd % n] == Slot(s.handles[h].fd, 1)
    ensures forall i :: 0 <= i < |acts| ==> !acts[i].Open?
    ensures Runs(s, n, acts)
    ensures var f := s.handles[h].fd; var t := After(s, n, acts);
      && t.slots == s.slots[f % n := Slot(EMPTY, 0)] && t.handles == s.handles - {h} && t.open == s.open - {f}
      && t.bad == (s.bad || f !in s.open || SharedWithOther(s, h, f))
  {
    hide Runs, After, SharedWithOther;
    var f := s.handles[h].fd;
    acts := ResetToClose(s, n, h);
    SharedWith(s, f % n, Slot(EMPTY, 0), h, f, Closing);
    RunsMore(s, n, acts, Step(h));
    acts := acts + [Step(h)];
  }

  lemma NextSlot(n: nat, f: int)
    requires n > 1 && f >= 0
    ensures (f + 1) % n != f % n
  {
    var q, r := f / n, f % n;
    if r + 1 < n {
      DivMod(f + 1, q, r + 1, n);
    } else {
      assert (q + 1) * n == q * n + n;
      DivMod(f + 1, q + 1, 0, n);
    }
  }

  /** A retain that finds its home slot taken: with one slot it gives up, else it takes the next one. */
  lemma {:induction false} RetainTaken(s: State, n: nat, h: HandleId) returns (acts: seq<Action>)
    requires |s.slots| == n > 0 && h in s.handles && s.handles[h].phase == Scan(h, 0) && s.handles[h].fd >= 0
    requires var f := s.handles[h].fd;
      && s.slots[f % n].fd != f && s.slots[f % n].fd != EMPTY
      && (n > 1 ==> s.slots[(f + 1) % n].fd == EMPTY)
    ensures forall i :: 0 <= i < |acts| ==> !acts[i].Open?
    ensures Runs(s, n, acts)
    ensures var f := s.handles[h].fd; var t := After(s, n, acts);
      && t.handles == s.handles[h := Handle(f, Ready)] && t.open == s.open && t.bad == s.bad
      && |t.slots| == n && t.slots[f % n] == s.slots[f % n]
  {
    hide Runs, After;
    var f := s.handles[h].fd;
    var k := f % n;
    RunsOne(s, n, Step(h));
    acts := [Step(h)];
    var s1 := Apply(s, n, Step(h));
    if n == 1 {
      assert s1 == At(s, h, Claim(h, 0));
      RunsMore(s, n, acts, Step(h));
      acts := acts + [Step(h)];
      assert Apply(s1, n, Step(h)) == At(s, h, Ready);
    } else {
      NextSlot(n, f);
      var k1 := (f + 1) % n;
      assert s1 == At(s, h, Scan(h, 1));
      RunsMore(s, n, acts, Step(h));
      acts := acts + [Step(h)];
      var s2 := Apply(s1, n, Step(h));
      assert s2 == At(s, h, Claim(h, 0));
      RunsMore(s, n, acts, Step(h));
      acts := acts + [Step(h)];
      var s3 := Apply(s2, n, Step(h));
      assert s3 == At(s, h, Claim(h, 1));
      RunsMore(s, n, acts, Step(h));
      acts := acts + [Step(h)];
      var s4 := Apply(s3, n, Step(h));
      assert s4 == With(s, k1, Slot(f, s.slots[k1].count), h, Handle(f, Start(h, k1)));
      RunsMore(s, n, acts, Step(h));
      acts := acts + [Step(h)];
      assert Apply(s4, n, Step(h)) == With(s, k1, Slot(f, 1), h, Handle(f, Ready));
    }
  }

  /** Adopt both, then drop the first: the second descriptor stays registered away from its home slot. */
  lemma {:induction false} LeaveAstray(n: nat, a: int, b: int) returns (acts: seq<Action>)
    requires n > 0 && a >= 0 && b >= 0 && a != b && a % n == b % n
    ensures OpensWithin(acts, {a, b}) && Runs(Init(n), n, acts)
    ensures var s := After(Init(n), n, acts);
      |s.slots| == n && s.slots[b % n].fd == EMPTY && s.handles == map[1 := Handle(b, Ready)]
  {
    hide Runs, After;
    var s0 := Init(n);
    RunsOne(s0, n, Open(0, a));
    acts := [Open(0, a)];
    var s1 := Apply(s0, n, Open(0, a));
    var part := RetainHome(s1, n, 0, 0);
    RunsConcat(s0, n, acts, part);
    acts := acts + part;
    var s2 := After(s0, n, acts);
    RunsMore(s0, n, acts, Open(1, b));
    acts := acts + [Open(1, b)];
    var s3 := Apply(s2, n, Open(1, b));
    if n > 1 { NextSlot(n, b); }
    part := RetainTaken(s3, n, 1);
    RunsConcat(s0, n, acts, part);
    acts := acts + part;
    var s4 := After(s0, n, acts);
    assert !Pinned(s4, 0) by { assert forall g :: g in s4.handles ==> s4.handles[g].phase.Ready?; }
    part := ResetHome(s4, n, 0);
    RunsConcat(s0, n, acts, part);
    acts := acts + part;
  }

  /** For every two descriptors with one home slot there is a run that opens only these two and closes one
      of them under a live handle: adopt both, drop the first, copy the second, drop the copy. */
  lemma {:induction false} CollisionBreaks(n: nat, a: int, b: int) returns (acts: seq<Action>)
    requires n > 0 && a >= 0 && b >= 0 && a != b && a % n == b % n
    ensures OpensWithin(acts, {a, b}) && Runs(Init(n), n, acts) && After(Init(n), n, acts).bad
  {
    hide Runs, After;
    var s0 := Init(n);
    acts := LeaveAstray(n, a, b);
    var s5 := After(s0, n, acts);
    RunsMore(s0, n, acts, Copy(2, 1));
    acts := acts + [Copy(2, 1)];
    var part := RetainHome(Apply(s5, n, Copy(2, 1)), n, 2, 1);
    RunsConcat(s0, n, acts, part);
    acts := acts + part;
    var s6 := After(s0, n, acts);
    assert s6.handles == map[1 := Handle(b, Ready), 2 := Handle(b, Ready)];
    part := ResetHome(s6, n, 2);
    RunsConcat(s0, n, acts, part);
    acts := acts + part;
    assert SharedWithOther(s6, 2, b) by { assert s6.handles[1].fd == b; }
  }

  /** No run over a set of descriptors closes one early or twice if and only if the descriptors have
      pairwise different home slots. */
  lemma SafeIffSpaced(n: nat, fds: set<int>)
    requires n > 0 && forall f :: f in fds ==> f >= 0
    ensures Spaced(fds, n) <==>
      forall acts: seq<Action> :: OpensWithin(acts, fds) && Runs(Init(n), n, acts) ==> !After(Init(n), n, acts).bad
  {
    if Spaced(fds, n) {
      forall acts: seq<Action> | OpensWithin(acts, fds) && Runs(Init(n), n, acts)
        ensures !After(Init(n), n, acts).bad
      {
        InitInv(n);
        WithinIsSpaced(Init(n), n, acts, fds);
        RunInv(Init(n), n, acts);
      }
    } else {
      var a, b :| a in fds && b in fds && a % n == b % n && a != b;
      var acts := CollisionBreaks(n, a, b);
      assert OpensWithin(acts, fds);
    }
  }
}
