/** Whole runs of the descriptor registry: safe while the descriptors open at one time have pairwise
    different home slots. */
module FdRuns {
  import opened Collections
  import opened FdRegistry

  ghost predicate Runs(s: State, n: nat, acts: seq<Action>)
    decreases |acts|
  {
    acts == [] || (Enabled(s, n, acts[0]) && Runs(Apply(s, n, acts[0]), n, acts[1..]))
  }

  ghost function After(s: State, n: nat, acts: seq<Action>): State
    requires Runs(s, n, acts)
    decreases |acts|
  {
    if acts == [] then s else After(Apply(s, n, acts[0]), n, acts[1..])
  }

  /** After every action of the run the descriptors in the care of handles have pairwise different home slots;
      those given up do not count. */
  ghost predicate SpacedRun(s: State, n: nat, acts: seq<Action>)
    requires Runs(s, n, acts)
    decreases |acts|
  {
    acts == [] || (var s' := Apply(s, n, acts[0]); Spaced(s'.open, n) && SpacedRun(s', n, acts[1..]))
  }

  /** Safety over every interleaving: while the descriptors held at one time are spaced, the invariant holds
      after every run. A descriptor number may come back in any slot once it was closed or given up. */
  lemma {:induction false} RunInv(s: State, n: nat, acts: seq<Action>)
    requires Inv(s, n) && Runs(s, n, acts) && SpacedRun(s, n, acts)
    ensures Inv(After(s, n, acts), n)
    decreases |acts|
  {
    if acts != [] {
      hide Inv;
      StepInv(s, n, acts[0]);
      RunInv(Apply(s, n, acts[0]), n, acts[1..]);
    }
  }

  /** The run opens descriptors of `fds` only. */
  ghost predicate OpensWithin(acts: seq<Action>, fds: set<int>) {
    forall i :: 0 <= i < |acts| && acts[i].Open? ==> acts[i].fd in fds
  }

  /** Every descriptor in the state is one of `fds`. */
  ghost predicate Within(s: State, fds: set<int>) {
    s.open + s.escaped <= fds && forall h :: h in s.handles ==> s.handles[h].fd in fds
  }

  lemma {:induction false} OpenStaysWithin(s: State, n: nat, a: Action, fds: set<int>)
    requires Enabled(s, n, a) && Within(s, fds) && (a.Open? ==> a.fd in fds)
    ensures Within(Apply(s, n, a), fds)
  {
    hide AtomicStep, GivesUp;
    if a.Step? { AtomicFrame(s, n, a.h); }
    var s' := Apply(s, n, a);
    forall e | e in s'.open + s'.escaped ensures e in fds {
      if e !in s.open + s.escaped && a.Step? { assert s.handles[a.h].fd in fds; }
    }
    forall h | h in s'.handles ensures s'.handles[h].fd in fds {
      if h in s.handles { assert s.handles[h].fd in fds; }
    }
  }

  /** In particular a run over a spaced set of descriptors is spaced throughout. */
  lemma {:induction false} WithinIsSpaced(s: State, n: nat, acts: seq<Action>, fds: set<int>)
    requires Runs(s, n, acts) && Spaced(fds, n) && Within(s, fds) && OpensWithin(acts, fds)
    ensures SpacedRun(s, n, acts)
    decreases |acts|
  {
    if acts != [] {
      hide Enabled, Apply;
      OpenStaysWithin(s, n, acts[0], fds);
      assert forall i :: 0 <= i < |acts| - 1 ==> acts[1..][i] == acts[i+1];
      WithinIsSpaced(Apply(s, n, acts[0]), n, acts[1..], fds);
    }
  }

  // ---------------------------------------------- what the invariant means

  /** The handle about to close is the last one, and its descriptor is open. */
  lemma ClosesLast(s: State, n: nat, h: HandleId)
    requires Inv(s, n) && h in s.handles && s.handles[h].phase.Closing?
    ensures Alone(s, h, s.handles[h].fd) && s.handles[h].fd in s.open
  {
    assert HandleOk(s, n, h);
  }

  /** When no handle is left and nobody it was given up to still has it, every open of a descriptor was closed
      exactly once, by a handle or by such an owner. */
  lemma ClosedExactlyOnce(s: State, n: nat, f: int)
    requires Inv(s, n) && f !in s.escaped && forall h :: h in s.handles ==> s.handles[h].fd != f
    ensures f !in s.open && s.closes[f] + s.ceded[f] == s.opens[f]
  {}

  /** The run never calls `release()` on a handle of `f`. */
  ghost predicate Keeps(s: State, n: nat, acts: seq<Action>, f: int)
    requires Runs(s, n, acts)
    decreases |acts|
  {
    acts == [] || (KeepsNow(s, acts[0], f) && Keeps(Apply(s, n, acts[0]), n, acts[1..], f))
  }

  ghost predicate KeepsNow(s: State, a: Action, f: int) {
    a.Detach? && a.h in s.handles ==> s.handles[a.h].fd != f
  }

  /** Nobody has given `f` up or is about to. */
  ghost predicate Kept(s: State, f: int) {
    && f !in s.escaped && s.ceded[f] == 0
    && forall h :: h in s.handles && s.handles[h].fd == f ==> !GivesUp(s.handles[h].phase)
  }

  /** What keeps `f`: its handles stay its own, and only a give-up starts giving up. */
  lemma {:induction false} KeptBy(s: State, s': State, f: int)
    requires Kept(s, f) && f !in s'.escaped && s'.ceded[f] == 0
    requires forall h :: h in s'.handles && s'.handles[h].fd == f && GivesUp(s'.handles[h].phase) ==>
      h in s.handles && s.handles[h].fd == f && GivesUp(s.handles[h].phase)
    ensures Kept(s', f)
  {
    hide GivesUp;
  }

  lemma {:induction false} KeptAtomic(s: State, n: nat, h: HandleId, f: int)
    requires Kept(s, f) && Enabled(s, n, Step(h))
    ensures Kept(AtomicStep(s, n, h), f)
  {
    hide AtomicStep, GivesUp;
    AtomicFrame(s, n, h);
    KeptBy(s, AtomicStep(s, n, h), f);
  }

  lemma {:induction false} KeptStep(s: State, n: nat, a: Action, f: int)
    requires Kept(s, f) && Enabled(s, n, a) && KeepsNow(s, a, f)
    ensures Kept(Apply(s, n, a), f)
  {
    hide AtomicStep;
    if a.Step? {
      KeptAtomic(s, n, a.h, f);
    } else {
      KeptBy(s, Apply(s, n, a), f);
    }
  }

  lemma {:induction false} KeptRun(s: State, n: nat, acts: seq<Action>, f: int)
    requires Kept(s, f) && Runs(s, n, acts) && Keeps(s, n, acts, f)
    ensures Kept(After(s, n, acts), f)
    decreases |acts|
  {
    if acts != [] {
      hide Enabled, Apply, Kept, KeepsNow;
      KeptStep(s, n, acts[0], f);
      KeptRun(Apply(s, n, acts[0]), n, acts[1..], f);
    }
  }

  /** Over every spaced run from the empty registry: a descriptor whose handles all ended through reset or
      destruction was closed exactly as often as it was opened, however the steps interleaved. */
  lemma RunClosesOnce(n: nat, acts: seq<Action>, f: int)
    requires n > 0 && Runs(Init(n), n, acts) && SpacedRun(Init(n), n, acts) && Keeps(Init(n), n, acts, f)
    requires forall h :: h in After(Init(n), n, acts).handles ==> After(Init(n), n, acts).handles[h].fd != f
    ensures var s := After(Init(n), n, acts); f !in s.open && s.closes[f] == s.opens[f] && !s.bad
  {
    InitInv(n);
    RunInv(Init(n), n, acts);
    KeptRun(Init(n), n, acts, f);
    ClosedExactlyOnce(After(Init(n), n, acts), n, f);
  }

  ghost function Owners(s: State, f: int): set<HandleId> {
    set h | h in s.handles && s.handles[h].fd == f
  }

  /** Number of owners whose operation has been counted: all of them but retains under way, and
      releases that have subtracted already. */
  lemma CountIsHandles(s: State, n: nat, f: int)
    requires Inv(s, n) && f in s.open && s.slots[f % n].fd == f
    ensures s.slots[f % n].count == |Holders(s, f)| <= |Owners(s, f)|
    ensures (forall h :: h in Owners(s, f) ==> Counted(s.handles[h].phase)) ==> s.slots[f % n].count == |Owners(s, f)|
  {
    assert SlotOk(s, n, f % n);
    SubsetSize(Holders(s, f), Owners(s, f));
    if forall h :: h in Owners(s, f) ==> Counted(s.handles[h].phase) { assert Holders(s, f) == Owners(s, f); }
  }

  /** The scan of `get_count` from slot `i` on. The registry may change between any two loads: `at[i]` is the
      registry when the descriptor of slot `i` is loaded, and a count is loaded one step later. */
  function GetCount(at: seq<seq<Slot>>, n: nat, f: int, i: nat): int
    requires |at| == n + 1 && i <= n && forall j :: 0 <= j <= n ==> |at[j]| == n
    decreases n - i
  {
    if i == n then 0 else if at[i][i].fd == f then at[i+1][i].count else GetCount(at, n, f, i + 1)
  }

  lemma {:induction false} GetCountFinds(at: seq<seq<Slot>>, n: nat, f: int, i: nat, k: nat)
    requires |at| == n + 1 && i <= k < n && forall j :: 0 <= j <= n ==> |at[j]| == n
    requires forall j :: 0 <= j < n && j != k ==> at[j][j].fd != f
    ensures GetCount(at, n, f, i) == if at[k][k].fd == f then at[k+1][k].count else 0
    decreases n - i
  {
    if i < k { GetCountFinds(at, n, f, i + 1, k); }
    else if at[k][k].fd != f { GetCountMisses(at, n, f, k + 1); }
  }

  lemma {:induction false} GetCountMisses(at: seq<seq<Slot>>, n: nat, f: int, i: nat)
    requires |at| == n + 1 && i <= n && forall j :: 0 <= j <= n ==> |at[j]| == n
    requires forall j :: i <= j < n ==> at[j][j].fd != f
    ensures GetCount(at, n, f, i) == 0
    decreases n - i
  {
    if i < n { GetCountMisses(at, n, f, i + 1); }
  }

  ghost function SlotsOf(states: seq<State>): (at: seq<seq<Slot>>)
    ensures |at| == |states| && forall j {:trigger at[j]} :: 0 <= j < |at| ==> at[j] == states[j].slots
  {
    seq(|states|, j requires 0 <= j < |states| => states[j].slots)
  }

  /** However other handles move on during the scan, `get_count` answers what the home slot shows: the count
      right after the load that found the descriptor there, or zero. */
  lemma {:induction false} GetCountReadsHome(states: seq<State>, n: nat, f: int)
    requires |states| == n + 1 && n > 0 && f >= 0
    requires forall j :: 0 <= j <= n ==> |states[j].slots| == n && Inv(states[j], n)
    ensures GetCount(SlotsOf(states), n, f, 0)
         == var k := f % n; if states[k].slots[k].fd == f then states[k+1].slots[k].count else 0
  {
    var k := f % n;
    forall j | 0 <= j < n && j != k ensures states[j].slots[j].fd != f { ForeignSlot(states[j], n, f, j); }
    hide Inv;
    GetCountFinds(SlotsOf(states), n, f, 0, k);
  }

  lemma ForeignSlot(s: State, n: nat, f: int, j: nat)
    requires Inv(s, n) && f >= 0 && j < n && j != f % n
    ensures s.slots[j].fd != f
  {
    assert SlotOk(s, n, j);
  }

  /** At rest, `use_count` is the number of handles of the descriptor. */
  lemma UseCount(s: State, n: nat, f: int)
    requires Inv(s, n) && f >= 0 && forall h :: h in s.handles ==> s.handles[h].phase.Ready?
    ensures GetCount(SlotsOf(seq(n + 1, j => s)), n, f, 0) == |Owners(s, f)|
  {
    GetCountReadsHome(seq(n + 1, j => s), n, f);
    if s.slots[f % n].fd == f {
      assert SlotOk(s, n, f % n);
      CountIsHandles(s, n, f);
    } else {
      forall h | h in s.handles ensures s.handles[h].fd != f { assert HandleOk(s, n, h); }
      assert Owners(s, f) == {};
    }
  }

  // ------------------------------------------------------------ switch guard

  /** Move assignment between two handles, the target being empty: nothing happens when source and target
      are the same object or the source is empty. */
  predicate CanMove(s: State, n: nat, dst: HandleId, src: HandleId) {
    dst == src || src !in s.handles || Enabled(s, n, Move(dst, src))
  }

  function MoveAssign(s: State, n: nat, dst: HandleId, src: HandleId): State
    requires CanMove(s, n, dst, src)
  {
    if dst == src || src !in s.handles then s else Apply(s, n, Move(dst, src))
  }

  /** The two handles that a guard switches, and its temporary, are not in use by anyone else. */
  predicate Quiet(s: State, h: HandleId) {
    h in s.handles ==> Idle(s, h) && !Pinned(s, h)
  }

  /** Entering: the active handle goes to the temporary, the target becomes active. No handle is reset on
      the way, also when both names denote one object. */
  lemma GuardEnter(s: State, n: nat, active: HandleId, target: HandleId, temp: HandleId)
    requires |s.slots| == n > 0 && temp !in s.handles && temp != active && temp != target
    requires Quiet(s, active) && Quiet(s, target)
    ensures CanMove(s, n, temp, active)
    ensures var s1 := MoveAssign(s, n, temp, active);
      && CanMove(s1, n, active, target) && active !in s1.handles
      && var s2 := MoveAssign(s1, n, active, target);
         && s2.slots == s.slots && s2.open == s.open && s2.closes == s.closes
         && (forall h :: h != active && h != target && h != temp ==>
               (h in s2.handles <==> h in s.handles) && (h in s.handles ==> s2.handles[h] == s.handles[h]))
         && target !in s2.handles
         && (active in s.handles <==> temp in s2.handles)
         && (active in s.handles ==> s2.handles[temp] == s.handles[active])
         && (active != target ==>
              (target in s.handles <==> active in s2.handles)
              && (target in s.handles ==> s2.handles[active] == s.handles[target]))
         && (active == target ==> active !in s2.handles)
  {
    var s1 := MoveAssign(s, n, temp, active);
    if active != target && target in s.handles {
      assert Idle(s1, target);
      assert !Pinned(s1, target) by {
        forall g | g in s1.handles && g != target ensures !PinsOn(s1.handles[g].phase, target) {
          assert s1.handles[g] == s.handles[if g == temp then active else g];
        }
      }
    }
  }

  /** Leaving: the active handle goes back to the target, the temporary to the active one. */
  lemma GuardLeave(s: State, n: nat, active: HandleId, target: HandleId, temp: HandleId, s2: State)
    requires |s2.slots| == n > 0 && temp != active && temp != target
    requires target !in s2.handles
    requires active in s.handles <==> temp in s2.handles
    requires active in s.handles ==> s2.handles[temp] == s.handles[active]
    requires active != target ==> (target in s.handles <==> active in s2.handles)
    requires active != target && target in s.handles ==> s2.handles[active] == s.handles[target]
    requires active == target ==> active !in s2.handles
    requires Quiet(s2, active) && Quiet(s2, temp)
    ensures CanMove(s2, n, target, active)
    ensures var s3 := MoveAssign(s2, n, target, active);
      && CanMove(s3, n, active, temp)
      && var s4 := MoveAssign(s3, n, active, temp);
         && s4.slots == s2.slots && s4.open == s2.open && s4.closes == s2.closes && temp !in s4.handles
         && (active in s4.handles <==> active in s.handles)
         && (active in s.handles ==> s4.handles[active] == s.handles[active])
         && (target in s4.handles <==> target in s.handles)
         && (target in s.handles ==> s4.handles[target] == s.handles[target])
         && (forall h :: h != active && h != target && h != temp ==>
               (h in s4.handles <==> h in s2.handles) && (h in s2.handles ==> s4.handles[h] == s2.handles[h]))
  {
    var s3 := MoveAssign(s2, n, target, active);
    if temp in s2.handles {
      assert Idle(s3, temp);
      assert !Pinned(s3, temp) by {
        forall g | g in s3.handles && g != temp ensures !PinsOn(s3.handles[g].phase, temp) {
          assert s3.handles[g] == s2.handles[if g == target && active != target then active else g];
        }
      }
    }
  }

  ghost predicate SameHandle(s: State, s': State, h: HandleId) {
    (h in s'.handles <==> h in s.handles) && (h in s.handles ==> s'.handles[h] == s.handles[h])
  }

  /** Actions on `h`, or that move `h` away; a copy from `h` leaves it as it is. */
  predicate Touches(a: Action, h: HandleId) { !a.Dispose? && (a.h == h || (a.Move? && a.from == h)) }

  lemma {:induction false} UntouchedStep(s: State, n: nat, a: Action, h: HandleId)
    requires Enabled(s, n, a) && !Touches(a, h)
    ensures SameHandle(s, Apply(s, n, a), h)
    ensures |Apply(s, n, a).slots| == |s.slots|
  {
    hide AtomicStep, GivesUp;
    if a.Step? { AtomicFrame(s, n, a.h); }
  }

  /** A handle that no action touches stays what it was, in every interleaving. */
  lemma {:induction false} UntouchedRun(s: State, n: nat, acts: seq<Action>, h: HandleId)
    requires Runs(s, n, acts) && forall i :: 0 <= i < |acts| ==> !Touches(acts[i], h)
    ensures SameHandle(s, After(s, n, acts), h)
    ensures |After(s, n, acts).slots| == |s.slots|
    decreases |acts|
  {
    if acts != [] {
      hide Enabled, Apply;
      UntouchedStep(s, n, acts[0], h);
      assert forall i :: 0 <= i < |acts| - 1 ==> acts[1..][i] == acts[i+1];
      UntouchedRun(Apply(s, n, acts[0]), n, acts[1..], h);
    }
  }

  /** The state right after entering the guard. */
  ghost function Entered(s: State, n: nat, active: HandleId, target: HandleId, temp: HandleId): State
    requires CanMove(s, n, temp, active) && CanMove(MoveAssign(s, n, temp, active), n, active, target)
  {
    MoveAssign(MoveAssign(s, n, temp, active), n, active, target)
  }

  /** The state right after leaving it. */
  ghost function Left(s: State, n: nat, active: HandleId, target: HandleId, temp: HandleId): State
    requires CanMove(s, n, target, active) && CanMove(MoveAssign(s, n, target, active), n, active, temp)
  {
    MoveAssign(MoveAssign(s, n, target, active), n, active, temp)
  }

  /** Enter, let everybody else run in any interleaving without touching the three handles, and leave while
      neither of the two held ones is being copied: both handles are what they were before entering, the
      temporary is gone, and entering and leaving counted, released and closed nothing. */
  lemma GuardRestores(s: State, n: nat, active: HandleId, target: HandleId, temp: HandleId,
                                         acts: seq<Action>)
    requires |s.slots| == n > 0 && temp !in s.handles && temp != active && temp != target
    requires Quiet(s, active) && Quiet(s, target)
    requires CanMove(s, n, temp, active) && CanMove(MoveAssign(s, n, temp, active), n, active, target)
    requires Runs(Entered(s, n, active, target, temp), n, acts)
    requires forall i :: 0 <= i < |acts| ==>
               !Touches(acts[i], active) && !Touches(acts[i], target) && !Touches(acts[i], temp)
    requires var t := After(Entered(s, n, active, target, temp), n, acts); !Pinned(t, active) && !Pinned(t, temp)
    ensures var t := After(Entered(s, n, active, target, temp), n, acts);
      && CanMove(t, n, target, active) && CanMove(MoveAssign(t, n, target, active), n, active, temp)
      && var u := Left(t, n, active, target, temp);
         && SameHandle(s, u, active) && SameHandle(s, u, target) && temp !in u.handles
         && u.slots == t.slots && u.open == t.open && u.closes == t.closes
         && (forall h :: h != active && h != target && h != temp ==> SameHandle(t, u, h))
  {
    var e := Entered(s, n, active, target, temp);
    var t := After(e, n, acts);
    GuardEnter(s, n, active, target, temp);
    UntouchedRun(e, n, acts, active);
    UntouchedRun(e, n, acts, target);
    UntouchedRun(e, n, acts, temp);
    GuardLeave(s, n, active, target, temp, t);
  }
}
