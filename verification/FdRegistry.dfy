/** Lock-free reference counting of file descriptors as an interleaved transition system: every atomic
    load, compare-exchange, addition, subtraction and store of the registry is one step, and the steps of
    all handle operations in progress interleave freely. */
module FdRegistry {

  const EMPTY: int := -1

  type HandleId = nat

  datatype Slot = Slot(fd: int, count: int)

  /** Where the operation on a handle stands. The first four belong to `retain`, the next three to
      `release`; `src` is the handle being copied, or the handle itself when a raw descriptor is adopted. */
  datatype Phase =
    | Ready
    | Scan(src: HandleId, probe: nat)     // step 1: about to load a slot
    | Claim(src: HandleId, probe: nat)    // step 2: about to compare-exchange a slot
    | Bump(src: HandleId, idx: nat)       // about to add one
    | Start(src: HandleId, idx: nat)      // slot claimed, about to store one
    | Seek(probe: nat, closing: bool)     // about to load a slot
    | Take(idx: nat, closing: bool)       // about to subtract one
    | Free(idx: nat, closing: bool)       // count reached zero, about to store -1
    | Closing                             // release said true, about to close the descriptor

  datatype Handle = Handle(fd: int, phase: Phase)

  /** Handles that hold no descriptor are not in the map. `open` are the descriptors in the care of handles,
      `escaped` those whose last handle gave them up by `release()`, still open but in the care of somebody
      else. `opens` counts the opens, `closes` the closes by handles, `ceded` those by the owners of escaped
      descriptors. `bad` records a close of a descriptor that is not open or still has another handle. */
  datatype State = State(slots: seq<Slot>, handles: map<HandleId, Handle>, open: set<int>, escaped: set<int>,
                         opens: multiset<int>, closes: multiset<int>, ceded: multiset<int>, bad: bool)

  datatype Action =
    | Open(h: HandleId, fd: int)          // the descriptor is opened and adopted by a new handle
    | Readopt(h: HandleId, fd: int)       // a descriptor given up before is adopted by a new handle
    | Dispose(fd: int)                    // a descriptor given up before is closed by its owner
    | Copy(h: HandleId, from: HandleId)
    | Move(h: HandleId, from: HandleId)
    | Reset(h: HandleId)                  // also the destructor
    | Detach(h: HandleId)                 // release(): gives the descriptor up without closing it
    | Step(h: HandleId)                   // the next atomic step of the operation on `h`

  function Init(n: nat): State {
    State(seq(n, i => Slot(EMPTY, 0)), map[], {}, {}, multiset{}, multiset{}, multiset{}, false)
  }

  function Probe(n: nat, fd: int, i: nat): (k: nat)
    requires n > 0
    ensures k < n
  {
    (fd + i) % n
  }

  predicate Idle(s: State, h: HandleId) { h in s.handles && s.handles[h].phase.Ready? }

  /** Some other handle is being copied from `h`. */
  predicate Pinned(s: State, h: HandleId) {
    exists g :: g in s.handles && g != h && PinsOn(s.handles[g].phase, h)
  }

  predicate PinsOn(p: Phase, h: HandleId) {
    match p
    case Scan(src, _) => src == h
    case Claim(src, _) => src == h
    case Bump(src, _) => src == h
    case Start(src, _) => src == h
    case _ => false
  }

  predicate Enabled(s: State, n: nat, a: Action) {
    && |s.slots| == n > 0
    && match a
       case Open(h, fd) => h !in s.handles && fd >= 0 && fd !in s.open && fd !in s.escaped
       case Readopt(h, fd) => h !in s.handles && fd in s.escaped
       case Dispose(fd) => fd in s.escaped
       case Copy(h, from) => h !in s.handles && Idle(s, from)
       case Move(h, from) => h !in s.handles && Idle(s, from) && !Pinned(s, from)
       case Reset(h) => Idle(s, h) && !Pinned(s, h)
       case Detach(h) => Idle(s, h) && !Pinned(s, h)
       case Step(h) => h in s.handles && !s.handles[h].phase.Ready? && InRange(s.handles[h].phase, n)
  }

  predicate InRange(p: Phase, n: nat) {
    match p
    case Bump(_, idx) => idx < n
    case Start(_, idx) => idx < n
    case Take(idx, _) => idx < n
    case Free(idx, _) => idx < n
    case _ => true
  }

  function At(s: State, h: HandleId, p: Phase): State
    requires h in s.handles
  {
    s.(handles := s.handles[h := s.handles[h].(phase := p)])
  }

  function Emptied(s: State, h: HandleId): State { s.(handles := s.handles - {h}) }

  /** Step 1 of retain: found, unused slot, or go on probing. */
  function ScanStep(s: State, n: nat, h: HandleId, src: HandleId, i: nat): State
    requires h in s.handles && |s.slots| == n > 0
  {
    var f := s.handles[h].fd;
    var k := Probe(n, f, i);
    if s.slots[k].fd == f then At(s, h, Bump(src, k))
    else if s.slots[k].fd == EMPTY || i + 1 >= n then At(s, h, Claim(src, 0))
    else At(s, h, Scan(src, i + 1))
  }

  /** Step 2 of retain: compare-exchange, or the slot was claimed for the same descriptor, or go on; when
      every slot is taken, retain returns without having counted the handle. */
  function ClaimStep(s: State, n: nat, h: HandleId, src: HandleId, i: nat): State
    requires h in s.handles && |s.slots| == n > 0
  {
    var f := s.handles[h].fd;
    var k := Probe(n, f, i);
    if s.slots[k].fd == EMPTY then At(s.(slots := s.slots[k := s.slots[k].(fd := f)]), h, Start(src, k))
    else if s.slots[k].fd == f then At(s, h, Bump(src, k))
    else if i + 1 >= n then At(s, h, Ready)
    else At(s, h, Claim(src, i + 1))
  }

  /** The probe loop of release; a descriptor that is not registered is not released. */
  function SeekStep(s: State, n: nat, h: HandleId, i: nat, closing: bool): State
    requires h in s.handles && |s.slots| == n > 0
  {
    var f := s.handles[h].fd;
    var k := Probe(n, f, i);
    if s.slots[k].fd == f then At(s, h, Take(k, closing))
    else if i + 1 >= n then Emptied(s, h)
    else At(s, h, Seek(i + 1, closing))
  }

  function TakeStep(s: State, h: HandleId, k: nat, closing: bool): State
    requires h in s.handles && k < |s.slots|
  {
    var s1 := s.(slots := s.slots[k := s.slots[k].(count := s.slots[k].count - 1)]);
    if s.slots[k].count == 1 then At(s1, h, Free(k, closing)) else Emptied(s1, h)
  }

  function FreeStep(s: State, h: HandleId, k: nat, closing: bool): State
    requires h in s.handles && k < |s.slots|
  {
    var s1 := s.(slots := s.slots[k := s.slots[k].(fd := EMPTY)]);
    var f := s.handles[h].fd;
    if closing then At(s1, h, Closing) else Emptied(s1.(open := s.open - {f}, escaped := s.escaped + {f}), h)
  }

  predicate SharedWithOther(s: State, h: HandleId, f: int) {
    exists g :: g in s.handles && g != h && s.handles[g].fd == f
  }

  function CloseStep(s: State, h: HandleId): State
    requires h in s.handles
  {
    var f := s.handles[h].fd;
    Emptied(s.(open := s.open - {f}, closes := s.closes + multiset{f},
               bad := s.bad || f !in s.open || SharedWithOther(s, h, f)), h)
  }

  function AtomicStep(s: State, n: nat, h: HandleId): State
    requires Enabled(s, n, Step(h))
  {
    match s.handles[h].phase
    case Ready => s
    case Scan(src, i) => ScanStep(s, n, h, src, i)
    case Claim(src, i) => ClaimStep(s, n, h, src, i)
    case Bump(_, k) => At(s.(slots := s.slots[k := s.slots[k].(count := s.slots[k].count + 1)]), h, Ready)
    case Start(_, k) => At(s.(slots := s.slots[k := s.slots[k].(count := 1)]), h, Ready)
    case Seek(i, closing) => SeekStep(s, n, h, i, closing)
    case Take(k, closing) => TakeStep(s, h, k, closing)
    case Free(k, closing) => FreeStep(s, h, k, closing)
    case Closing => CloseStep(s, h)
  }

  function Apply(s: State, n: nat, a: Action): State
    requires Enabled(s, n, a)
  {
    match a
    case Open(h, fd) =>
      s.(handles := s.handles[h := Handle(fd, Scan(h, 0))], open := s.open + {fd}, opens := s.opens + multiset{fd})
    case Readopt(h, fd) =>
      s.(handles := s.handles[h := Handle(fd, Scan(h, 0))], open := s.open + {fd}, escaped := s.escaped - {fd})
    case Dispose(fd) => s.(escaped := s.escaped - {fd}, ceded := s.ceded + multiset{fd})
    case Copy(h, from) => s.(handles := s.handles[h := Handle(s.handles[from].fd, Scan(from, 0))])
    case Move(h, from) => s.(handles := (s.handles - {from})[h := s.handles[from]])
    case Reset(h) => At(s, h, Seek(0, true))
    case Detach(h) => At(s, h, Seek(0, false))
    case Step(h) => AtomicStep(s, n, h)
  }

  predicate GivesUp(p: Phase) { (p.Seek? || p.Take? || p.Free?) && !p.closing }

  /** What a step on `h` can change: its own handle, slots, and where the handle's descriptor is cared for. */
  ghost predicate ChangesOnly(s: State, s': State, n: nat, h: HandleId)
    requires h in s.handles
  {
    && |s'.slots| == n && s'.ceded == s.ceded && s'.open <= s.open
    && (forall e :: e in s'.escaped ==> e in s.escaped || (e == s.handles[h].fd && GivesUp(s.handles[h].phase)))
    && (forall g :: g in s'.handles ==> g in s.handles && s'.handles[g].fd == s.handles[g].fd)
    && (forall g :: g in s.handles && g != h ==> g in s'.handles && s'.handles[g] == s.handles[g])
    && (h in s'.handles && GivesUp(s'.handles[h].phase) ==> GivesUp(s.handles[h].phase))
  }

  lemma {:induction false} RetainFrame(s: State, n: nat, h: HandleId)
    requires Enabled(s, n, Step(h))
    requires var p := s.handles[h].phase; p.Scan? || p.Claim? || p.Bump? || p.Start?
    ensures ChangesOnly(s, AtomicStep(s, n, h), n, h)
  {
    hide Probe;
  }

  lemma {:induction false} ReleaseFrame(s: State, n: nat, h: HandleId)
    requires Enabled(s, n, Step(h)) && (s.handles[h].phase.Seek? || s.handles[h].phase.Take?)
    ensures ChangesOnly(s, AtomicStep(s, n, h), n, h)
  {
    hide Probe;
  }

  lemma {:induction false} EndFrame(s: State, n: nat, h: HandleId)
    requires Enabled(s, n, Step(h)) && (s.handles[h].phase.Free? || s.handles[h].phase.Closing?)
    ensures ChangesOnly(s, AtomicStep(s, n, h), n, h)
  {
    hide Probe;
  }

  lemma {:induction false} AtomicFrame(s: State, n: nat, h: HandleId)
    requires Enabled(s, n, Step(h))
    ensures ChangesOnly(s, AtomicStep(s, n, h), n, h)
  {
    hide AtomicStep, ChangesOnly;
    var p := s.handles[h].phase;
    if p.Scan? || p.Claim? || p.Bump? || p.Start? {
      RetainFrame(s, n, h);
    } else if p.Seek? || p.Take? {
      ReleaseFrame(s, n, h);
    } else {
      EndFrame(s, n, h);
    }
  }

  // -------------------------------------------------------------- invariant

  /** Descriptors with pairwise different home slots. */
  ghost predicate Spaced(open: set<int>, n: nat) {
    n > 0 && (forall f :: f in open ==> f >= 0) && forall f, g :: f in open && g in open && f % n == g % n ==> f == g
  }

  /** Phases in which the registry has counted the handle. */
  predicate Counted(p: Phase) { p.Ready? || p.Seek? || p.Take? }

  ghost function Holders(s: State, f: int): set<HandleId> {
    set h | h in s.handles && s.handles[h].fd == f && Counted(s.handles[h].phase)
  }

  ghost predicate Alone(s: State, h: HandleId, f: int) {
    forall g :: g in s.handles && s.handles[g].fd == f ==> g == h
  }

  ghost predicate Source(s: State, h: HandleId, src: HandleId, f: int) {
    src != h && Idle(s, src) && s.handles[src].fd == f
  }

  ghost predicate HandleOk(s: State, n: nat, h: HandleId)
    requires h in s.handles && |s.slots| == n > 0
  {
    var f := s.handles[h].fd;
    var slot := s.slots[f % n];
    && f in s.open
    && match s.handles[h].phase
       case Ready => slot.fd == f
       case Scan(src, i) => i == 0 && if src == h then slot.fd == EMPTY && Alone(s, h, f) else Source(s, h, src, f)
       case Claim(src, i) => i == 0 && src == h && slot.fd == EMPTY && Alone(s, h, f)
       case Bump(src, k) => k == f % n && Source(s, h, src, f)
       case Start(src, k) => k == f % n && src == h && slot == Slot(f, 0) && Alone(s, h, f)
       case Seek(i, _) => i == 0 && slot.fd == f
       case Take(k, _) => k == f % n && slot.fd == f
       case Free(k, _) => k == f % n && slot == Slot(f, 0) && Alone(s, h, f)
       case Closing => slot.fd == EMPTY && Alone(s, h, f)
  }

  ghost predicate SlotOk(s: State, n: nat, k: nat)
    requires |s.slots| == n > 0 && k < n
  {
    var slot := s.slots[k];
    if slot.fd == EMPTY then slot.count == 0
    else slot.fd in s.open && slot.fd % n == k && slot.count == |Holders(s, slot.fd)|
  }

  /** Every descriptor in the care of handles has a handle; none that was given up is among them. */
  ghost predicate Owned(s: State) {
    && (forall f :: f in s.open ==> exists h :: h in s.handles && s.handles[h].fd == f)
    && (forall f :: f in s.escaped ==> f >= 0 && f !in s.open)
  }

  /** Every open is matched by one close, or the descriptor is still open. */
  ghost predicate Balanced(s: State) {
    forall f :: s.opens[f] == s.closes[f] + s.ceded[f] + if f in s.open || f in s.escaped then 1 else 0
  }

  ghost predicate Inv(s: State, n: nat) {
    && |s.slots| == n > 0 && Spaced(s.open, n)
    && (forall h :: h in s.handles ==> HandleOk(s, n, h))
    && (forall k :: 0 <= k < n ==> SlotOk(s, n, k))
    && Owned(s) && Balanced(s) && !s.bad
  }

  lemma InitInv(n: nat)
    requires n > 0
    ensures Inv(Init(n), n)
  {}

  // ----------------------------------------- every step keeps the invariant

  /** Two different open descriptors live in different slots. */
  lemma DifferentSlots(s: State, n: nat, f: int, g: int)
    requires Spaced(s.open, n) && f in s.open && g in s.open && f != g
    ensures f % n != g % n
  {}

  /** A new handle for a descriptor that no handle has. */
  lemma AdoptInv(s: State, n: nat, h: HandleId, fd: int, s': State)
    requires Inv(s, n) && h !in s.handles && fd >= 0 && fd !in s.open && Spaced(s.open + {fd}, n)
    requires s' == s.(handles := s.handles[h := Handle(fd, Scan(h, 0))], open := s.open + {fd},
                      opens := s'.opens, escaped := s'.escaped)
    requires Balanced(s') && s'.escaped == s.escaped - {fd}
    ensures Inv(s', n)
  {
    assert s.slots[fd % n].fd == EMPTY by { assert SlotOk(s, n, fd % n); }
    forall g | g in s'.handles ensures HandleOk(s', n, g) { if g != h { assert HandleOk(s, n, g); } }
    forall k | 0 <= k < n ensures SlotOk(s', n, k) {
      assert SlotOk(s, n, k);
      assert Holders(s', s.slots[k].fd) == Holders(s, s.slots[k].fd);
    }
    forall f | f in s'.open ensures exists g :: g in s'.handles && s'.handles[g].fd == f {
      if f == fd { assert s'.handles[h].fd == f; }
      else { var g :| g in s.handles && s.handles[g].fd == f; assert s'.handles[g].fd == f; }
    }
  }

  lemma OpenInv(s: State, n: nat, h: HandleId, fd: int)
    requires Inv(s, n) && Enabled(s, n, Open(h, fd)) && Spaced(s.open + {fd}, n)
    ensures Inv(Apply(s, n, Open(h, fd)), n)
  {
    assert s.escaped - {fd} == s.escaped;
    AdoptInv(s, n, h, fd, Apply(s, n, Open(h, fd)));
  }

  lemma ReadoptInv(s: State, n: nat, h: HandleId, fd: int)
    requires Inv(s, n) && Enabled(s, n, Readopt(h, fd)) && Spaced(s.open + {fd}, n)
    ensures Inv(Apply(s, n, Readopt(h, fd)), n)
  {
    AdoptInv(s, n, h, fd, Apply(s, n, Readopt(h, fd)));
  }

  /** What the owner of a given-up descriptor does with it is no concern of the registry. */
  lemma DisposeInv(s: State, n: nat, fd: int)
    requires Inv(s, n) && Enabled(s, n, Dispose(fd))
    ensures Inv(Apply(s, n, Dispose(fd)), n)
  {
    var s' := Apply(s, n, Dispose(fd));
    forall g | g in s'.handles ensures HandleOk(s', n, g) { assert HandleOk(s, n, g); }
    forall k | 0 <= k < n ensures SlotOk(s', n, k) {
      assert SlotOk(s, n, k);
      assert Holders(s', s.slots[k].fd) == Holders(s, s.slots[k].fd);
    }
  }

  lemma CopyInv(s: State, n: nat, h: HandleId, from: HandleId)
    requires Inv(s, n) && Enabled(s, n, Copy(h, from))
    ensures Inv(Apply(s, n, Copy(h, from)), n)
  {
    var s' := Apply(s, n, Copy(h, from));
    assert HandleOk(s, n, from);
    forall g | g in s'.handles ensures HandleOk(s', n, g) { if g != h { assert HandleOk(s, n, g); } }
    forall k | 0 <= k < n ensures SlotOk(s', n, k) {
      assert SlotOk(s, n, k);
      assert Holders(s', s.slots[k].fd) == Holders(s, s.slots[k].fd);
    }
    forall f | f in s'.open ensures exists g :: g in s'.handles && s'.handles[g].fd == f {
      var g :| g in s.handles && s.handles[g].fd == f; assert s'.handles[g].fd == f;
    }
  }

  lemma MoveHandles(s: State, n: nat, h: HandleId, from: HandleId, g: HandleId)
    requires Inv(s, n) && Enabled(s, n, Move(h, from)) && g in Apply(s, n, Move(h, from)).handles
    ensures HandleOk(Apply(s, n, Move(h, from)), n, g)
  {
    assert HandleOk(s, n, from);
    if g != h {
      assert HandleOk(s, n, g) && g != from;
      assert !PinsOn(s.handles[g].phase, from);
    }
  }

  lemma MoveSlots(s: State, n: nat, h: HandleId, from: HandleId, k: nat)
    requires Inv(s, n) && Enabled(s, n, Move(h, from)) && k < n
    ensures SlotOk(Apply(s, n, Move(h, from)), n, k)
  {
    var s' := Apply(s, n, Move(h, from));
    assert SlotOk(s, n, k);
    var f := s.slots[k].fd;
    if s.handles[from].fd == f { assert Holders(s', f) == Holders(s, f) - {from} + {h}; }
    else { assert Holders(s', f) == Holders(s, f); }
  }

  lemma {:induction false} MoveInv(s: State, n: nat, h: HandleId, from: HandleId)
    requires Inv(s, n) && Enabled(s, n, Move(h, from))
    ensures Inv(Apply(s, n, Move(h, from)), n)
  {
    hide HandleOk, SlotOk;
    var s' := Apply(s, n, Move(h, from));
    forall g | g in s'.handles ensures HandleOk(s', n, g) { MoveHandles(s, n, h, from, g); }
    forall k | 0 <= k < n ensures SlotOk(s', n, k) { MoveSlots(s, n, h, from, k); }
    forall f | f in s'.open ensures exists g :: g in s'.handles && s'.handles[g].fd == f {
      var g :| g in s.handles && s.handles[g].fd == f;
      assert s'.handles[if g == from then h else g].fd == f;
    }
  }

  /** Only the phase of one handle changed, and it stays counted or stays uncounted. */
  lemma PhaseInv(s: State, n: nat, h: HandleId, p: Phase)
    requires Inv(s, n) && h in s.handles && Counted(p) == Counted(s.handles[h].phase)
    requires HandleOk(At(s, h, p), n, h)
    requires forall g :: g in s.handles && g != h && PinsOn(s.handles[g].phase, h) ==> p.Ready?
    ensures Inv(At(s, h, p), n)
  {
    var s' := At(s, h, p);
    forall g | g in s'.handles ensures HandleOk(s', n, g) {
      if g != h { assert HandleOk(s, n, g); }
    }
    forall k | 0 <= k < n ensures SlotOk(s', n, k) {
      assert SlotOk(s, n, k);
      assert Holders(s', s.slots[k].fd) == Holders(s, s.slots[k].fd);
    }
    forall f | f in s'.open ensures exists g :: g in s'.handles && s'.handles[g].fd == f {
      var g :| g in s.handles && s.handles[g].fd == f; assert s'.handles[g].fd == f;
    }
  }

  /** A handle that is not idle is not being copied. */
  lemma NotCopied(s: State, n: nat, h: HandleId, g: HandleId)
    requires Inv(s, n) && h in s.handles && !s.handles[h].phase.Ready? && g in s.handles && g != h
    ensures !PinsOn(s.handles[g].phase, h)
  {
    assert HandleOk(s, n, g);
  }

  lemma BusyPhaseInv(s: State, n: nat, h: HandleId, p: Phase)
    requires Inv(s, n) && h in s.handles && !s.handles[h].phase.Ready?
    requires Counted(p) == Counted(s.handles[h].phase) && HandleOk(At(s, h, p), n, h)
    ensures Inv(At(s, h, p), n)
  {
    forall g | g in s.handles && g != h ensures !PinsOn(s.handles[g].phase, h) { NotCopied(s, n, h, g); }
    PhaseInv(s, n, h, p);
  }

  lemma ResetInv(s: State, n: nat, h: HandleId, closing: bool)
    requires Inv(s, n) && Enabled(s, n, if closing then Reset(h) else Detach(h))
    ensures Inv(At(s, h, Seek(0, closing)), n)
  {
    assert HandleOk(s, n, h);
    PhaseInv(s, n, h, Seek(0, closing));
  }

  lemma ScanInv(s: State, n: nat, h: HandleId)
    requires Inv(s, n) && h in s.handles && s.handles[h].phase.Scan?
    ensures Inv(ScanStep(s, n, h, s.handles[h].phase.src, s.handles[h].phase.probe), n)
  {
    assert HandleOk(s, n, h);
    var f, src := s.handles[h].fd, s.handles[h].phase.src;
    if src == h {
      BusyPhaseInv(s, n, h, Claim(src, 0));
    } else {
      assert HandleOk(s, n, src);
      BusyPhaseInv(s, n, h, Bump(src, f % n));
    }
  }

  lemma SeekInv(s: State, n: nat, h: HandleId)
    requires Inv(s, n) && h in s.handles && s.handles[h].phase.Seek?
    ensures Inv(SeekStep(s, n, h, s.handles[h].phase.probe, s.handles[h].phase.closing), n)
  {
    assert HandleOk(s, n, h);
    BusyPhaseInv(s, n, h, Take(s.handles[h].fd % n, s.handles[h].phase.closing));
  }

  /** Only the slot of the descriptor of `h` changed, and its handle. */
  lemma OtherSlots(s: State, s': State, n: nat, h: HandleId, k: nat)
    requires Inv(s, n) && h in s.handles && |s'.slots| == n && k < n && k != s.handles[h].fd % n
    requires s'.slots[k] == s.slots[k] && s.open - {s.handles[h].fd} <= s'.open
    requires forall g :: g != h ==>
      (g in s'.handles <==> g in s.handles) && (g in s.handles ==> s'.handles[g] == s.handles[g])
    requires h in s'.handles ==> s'.handles[h].fd == s.handles[h].fd
    ensures SlotOk(s', n, k)
  {
    assert HandleOk(s, n, h) && SlotOk(s, n, k);
    assert Holders(s', s.slots[k].fd) == Holders(s, s.slots[k].fd);
  }

  lemma ClaimInv(s: State, n: nat, h: HandleId)
    requires Inv(s, n) && h in s.handles && s.handles[h].phase.Claim?
    ensures Inv(ClaimStep(s, n, h, s.handles[h].phase.src, s.handles[h].phase.probe), n)
  {
    assert HandleOk(s, n, h);
    var f := s.handles[h].fd;
    var k := f % n;
    var s' := ClaimStep(s, n, h, h, 0);
    assert SlotOk(s, n, k);
    assert s' == At(s.(slots := s.slots[k := Slot(f, 0)]), h, Start(h, k));
    forall g | g in s'.handles ensures HandleOk(s', n, g) {
      assert HandleOk(s, n, g);
      if g != h { DifferentSlots(s, n, f, s.handles[g].fd); }
    }
    assert Holders(s', f) == {};
    forall j | 0 <= j < n ensures SlotOk(s', n, j) { if j != k { OtherSlots(s, s', n, h, j); } }
    forall e | e in s'.open ensures exists g :: g in s'.handles && s'.handles[g].fd == e {
      var g :| g in s.handles && s.handles[g].fd == e; assert s'.handles[g].fd == e;
    }
  }

  lemma BumpHandles(s: State, n: nat, h: HandleId, g: HandleId)
    requires Inv(s, n) && Enabled(s, n, Step(h)) && (s.handles[h].phase.Bump? || s.handles[h].phase.Start?)
    requires g in s.handles
    ensures HandleOk(AtomicStep(s, n, h), n, g)
  {
    var f := s.handles[h].fd;
    assert HandleOk(s, n, h) && HandleOk(s, n, g);
    if s.handles[h].phase.Bump? { assert HandleOk(s, n, s.handles[h].phase.src); }
    if s.handles[g].fd != f { DifferentSlots(s, n, f, s.handles[g].fd); }
  }

  lemma BumpSlot(s: State, n: nat, h: HandleId)
    requires Inv(s, n) && Enabled(s, n, Step(h)) && (s.handles[h].phase.Bump? || s.handles[h].phase.Start?)
    ensures SlotOk(AtomicStep(s, n, h), n, s.handles[h].fd % n)
  {
    var f := s.handles[h].fd;
    var s' := AtomicStep(s, n, h);
    assert HandleOk(s, n, h) && SlotOk(s, n, f % n);
    if s.handles[h].phase.Bump? { assert HandleOk(s, n, s.handles[h].phase.src); }
    else { assert Holders(s, f) == {}; }
    HoldersGain(s, s', h, f);
  }

  lemma HoldersGain(s: State, s': State, h: HandleId, f: int)
    requires h in s.handles && s.handles[h].fd == f && !Counted(s.handles[h].phase)
    requires h in s'.handles && s'.handles == s.handles[h := s'.handles[h]] && s'.handles[h].fd == f
    requires Counted(s'.handles[h].phase)
    ensures Holders(s', f) == Holders(s, f) + {h} && |Holders(s', f)| == |Holders(s, f)| + 1
  {
    assert h !in Holders(s, f);
  }

  lemma {:induction false} BumpInv(s: State, n: nat, h: HandleId)
    requires Inv(s, n) && Enabled(s, n, Step(h)) && (s.handles[h].phase.Bump? || s.handles[h].phase.Start?)
    ensures Inv(AtomicStep(s, n, h), n)
  {
    var k := s.handles[h].fd % n;
    var s' := AtomicStep(s, n, h);
    assert s'.slots == s.slots[k := s'.slots[k]] by { assert HandleOk(s, n, h); }
    hide HandleOk, SlotOk;
    forall g | g in s'.handles ensures HandleOk(s', n, g) { BumpHandles(s, n, h, g); }
    forall j | 0 <= j < n ensures SlotOk(s', n, j) {
      if j == k { BumpSlot(s, n, h); } else { OtherSlots(s, s', n, h, j); }
    }
    forall e | e in s'.open ensures exists g :: g in s'.handles && s'.handles[g].fd == e {
      var g :| g in s.handles && s.handles[g].fd == e; assert s'.handles[g].fd == e;
    }
  }

  /** Every handle of a descriptor some other handle also has is counted, or copies a counted one. */
  lemma HolderFor(s: State, n: nat, g: HandleId) returns (w: HandleId)
    requires Inv(s, n) && g in s.handles
    ensures Alone(s, g, s.handles[g].fd) || w in Holders(s, s.handles[g].fd)
    ensures w == g || (w in s.handles && s.handles[w].phase.Ready?)
  {
    assert HandleOk(s, n, g);
    var p := s.handles[g].phase;
    w := if p.Scan? || p.Bump? then p.src else g;
  }

  /** The subtraction that takes the last count leaves nobody else behind. */
  lemma LastOne(s: State, n: nat, h: HandleId)
    requires Inv(s, n) && h in s.handles && s.handles[h].phase.Take?
    ensures var f := s.handles[h].fd;
      && h in Holders(s, f) && s.slots[f % n].fd == f && s.slots[f % n].count == |Holders(s, f)| >= 1
      && (s.slots[f % n].count == 1 ==> Alone(s, h, f))
  {
    var f := s.handles[h].fd;
    assert HandleOk(s, n, h) && SlotOk(s, n, f % n);
    var hs := Holders(s, f);
    assert h in hs;
    if |hs| == 1 {
      assert hs - {h} == {} by { assert |hs - {h}| == 0; }
      forall g | g in s.handles && s.handles[g].fd == f ensures g == h {
        var w := HolderFor(s, n, g);
        assert w !in hs - {h};
      }
    }
  }

  lemma TakeHandles(s: State, n: nat, h: HandleId, g: HandleId)
    requires Inv(s, n) && Enabled(s, n, Step(h)) && s.handles[h].phase.Take? && g in AtomicStep(s, n, h).handles
    ensures HandleOk(AtomicStep(s, n, h), n, g)
  {
    var f := s.handles[h].fd;
    LastOne(s, n, h);
    assert HandleOk(s, n, h) && HandleOk(s, n, g);
    if g != h { NotCopied(s, n, h, g); }
    if s.handles[g].fd != f { DifferentSlots(s, n, f, s.handles[g].fd); }
  }

  lemma TakeSlot(s: State, n: nat, h: HandleId)
    requires Inv(s, n) && Enabled(s, n, Step(h)) && s.handles[h].phase.Take?
    ensures SlotOk(AtomicStep(s, n, h), n, s.handles[h].fd % n)
  {
    var f := s.handles[h].fd;
    LastOne(s, n, h);
    assert HandleOk(s, n, h) && SlotOk(s, n, f % n);
    assert Holders(AtomicStep(s, n, h), f) == Holders(s, f) - {h};
  }

  lemma {:induction false} TakeInv(s: State, n: nat, h: HandleId)
    requires Inv(s, n) && Enabled(s, n, Step(h)) && s.handles[h].phase.Take?
    ensures Inv(AtomicStep(s, n, h), n)
  {
    var f := s.handles[h].fd;
    var s' := AtomicStep(s, n, h);
    LastOne(s, n, h);
    assert s'.slots == s.slots[f % n := s'.slots[f % n]] by { assert HandleOk(s, n, h); }
    hide HandleOk, SlotOk, Holders;
    forall g | g in s'.handles ensures HandleOk(s', n, g) { TakeHandles(s, n, h, g); }
    forall j | 0 <= j < n ensures SlotOk(s', n, j) {
      if j == f % n { TakeSlot(s, n, h); } else { OtherSlots(s, s', n, h, j); }
    }
    forall e | e in s'.open ensures exists g :: g in s'.handles && s'.handles[g].fd == e {
      if e == f && h !in s'.handles {
        var g := AnotherHolder(s, n, h);
        assert s'.handles[g].fd == e;
      } else {
        var g :| g in s.handles && s.handles[g].fd == e; assert s'.handles[g].fd == e;
      }
    }
  }

  lemma AnotherHolder(s: State, n: nat, h: HandleId) returns (g: HandleId)
    requires Inv(s, n) && h in s.handles && s.handles[h].phase.Take?
    requires s.slots[s.handles[h].fd % n].count != 1
    ensures g in s.handles && g != h && s.handles[g].fd == s.handles[h].fd
  {
    LastOne(s, n, h);
    var hs := Holders(s, s.handles[h].fd);
    assert hs == (hs - {h}) + {h};
    g :| g in hs - {h};
  }

  lemma FreeHandles(s: State, n: nat, h: HandleId, g: HandleId)
    requires Inv(s, n) && Enabled(s, n, Step(h)) && s.handles[h].phase.Free? && g in AtomicStep(s, n, h).handles
    ensures HandleOk(AtomicStep(s, n, h), n, g)
  {
    var f := s.handles[h].fd;
    assert HandleOk(s, n, h) && HandleOk(s, n, g);
    if g != h {
      NotCopied(s, n, h, g);
      DifferentSlots(s, n, f, s.handles[g].fd);
    }
  }

  /** The books after freeing a slot: the descriptor still waits for its close, or is in other care. */
  lemma {:induction false} FreeBooks(s: State, n: nat, h: HandleId)
    requires Inv(s, n) && Enabled(s, n, Step(h)) && s.handles[h].phase.Free?
    ensures var s' := AtomicStep(s, n, h); Owned(s') && Balanced(s') && Spaced(s'.open, n)
  {
    var s' := AtomicStep(s, n, h);
    assert HandleOk(s, n, h);
    hide HandleOk, SlotOk;
    forall e | e in s'.open ensures exists g :: g in s'.handles && s'.handles[g].fd == e {
      var g :| g in s.handles && s.handles[g].fd == e; assert s'.handles[g].fd == e;
    }
  }

  lemma FreeSlots(s: State, n: nat, h: HandleId, j: nat)
    requires Inv(s, n) && Enabled(s, n, Step(h)) && s.handles[h].phase.Free? && j < n
    ensures |AtomicStep(s, n, h).slots| == n && SlotOk(AtomicStep(s, n, h), n, j)
  {
    assert HandleOk(s, n, h);
    if j != s.handles[h].fd % n { OtherSlots(s, AtomicStep(s, n, h), n, h, j); }
  }

  lemma {:induction false} FreeInv(s: State, n: nat, h: HandleId)
    requires Inv(s, n) && Enabled(s, n, Step(h)) && s.handles[h].phase.Free?
    ensures Inv(AtomicStep(s, n, h), n)
  {
    hide HandleOk, SlotOk, Owned, Balanced, Spaced;
    var s' := AtomicStep(s, n, h);
    FreeBooks(s, n, h);
    forall g | g in s'.handles ensures HandleOk(s', n, g) { FreeHandles(s, n, h, g); }
    forall j | 0 <= j < n ensures SlotOk(s', n, j) { FreeSlots(s, n, h, j); }
  }

  lemma CloseHandles(s: State, n: nat, h: HandleId, g: HandleId)
    requires Inv(s, n) && Enabled(s, n, Step(h)) && s.handles[h].phase.Closing? && g in AtomicStep(s, n, h).handles
    ensures HandleOk(AtomicStep(s, n, h), n, g)
  {
    assert HandleOk(s, n, h) && HandleOk(s, n, g);
    NotCopied(s, n, h, g);
  }

  lemma {:induction false} CloseInv(s: State, n: nat, h: HandleId)
    requires Inv(s, n) && Enabled(s, n, Step(h)) && s.handles[h].phase.Closing?
    ensures Inv(AtomicStep(s, n, h), n)
  {
    var f := s.handles[h].fd;
    var s' := AtomicStep(s, n, h);
    assert HandleOk(s, n, h);
    forall j | 0 <= j < n ensures SlotOk(s', n, j) {
      assert SlotOk(s, n, j);
      assert Holders(s', s.slots[j].fd) == Holders(s, s.slots[j].fd);
    }
    assert !s'.bad;
    hide HandleOk, SlotOk, Holders;
    forall g | g in s'.handles ensures HandleOk(s', n, g) { CloseHandles(s, n, h, g); }
    forall e | e in s'.open ensures exists g :: g in s'.handles && s'.handles[g].fd == e {
      var g :| g in s.handles && s.handles[g].fd == e; assert s'.handles[g].fd == e;
    }
  }

  /** Every step of every operation keeps the invariant as long as open descriptors stay spaced. */
  lemma {:induction false} StepInv(s: State, n: nat, a: Action)
    requires Inv(s, n) && Enabled(s, n, a) && Spaced(Apply(s, n, a).open, n)
    ensures Inv(Apply(s, n, a), n)
  {
    hide Inv;
    match a
    case Open(h, fd) => OpenInv(s, n, h, fd);
    case Readopt(h, fd) => ReadoptInv(s, n, h, fd);
    case Dispose(fd) => DisposeInv(s, n, fd);
    case Copy(h, from) => CopyInv(s, n, h, from);
    case Move(h, from) => MoveInv(s, n, h, from);
    case Reset(h) => ResetInv(s, n, h, true);
    case Detach(h) => ResetInv(s, n, h, false);
    case Step(h) =>
      match s.handles[h].phase
      case Scan(_, _) => ScanInv(s, n, h);
      case Claim(_, _) => ClaimInv(s, n, h);
      case Bump(_, _) => BumpInv(s, n, h);
      case Start(_, _) => BumpInv(s, n, h);
      case Seek(_, _) => SeekInv(s, n, h);
      case Take(_, _) => TakeInv(s, n, h);
      case Free(_, _) => FreeInv(s, n, h);
      case Closing => CloseInv(s, n, h);
  }
}
