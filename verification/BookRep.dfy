/** How the order book lives in memory: a node pool shared by a free list and by one doubly linked
    list per price level. The ghost queue of a side names its nodes in priority order; neighbours at
    the same price are linked, neighbours at different prices are not. */
module BookRep {
  import opened Collections
  import opened PriceTimeBook

  const NIL: int := -1

  datatype Order = Order(id: nat, price: nat, qty: nat, side: Side, prev: int, next: int)

  datatype PriceLevel = PriceLevel(price: nat, totalVolume: nat, head: int, tail: int)

  type Pool = seq<Order>
  type Levels = map<nat, PriceLevel>

  /** Arithmetic of a 32-bit quantity. */
  function Wrap(x: int): nat { x % 0x1_0000_0000 }

  lemma WrapAdd(x: int, d: int)
    ensures Wrap(Wrap(x) + d) == Wrap(x + d)
  {
  }

  ghost predicate InPool(pool: Pool, q: seq<nat>) {
    forall i :: 0 <= i < |q| ==> q[i] < |pool|
  }

  function InsertAt<T>(q: seq<T>, k: nat, x: T): (r: seq<T>)
    requires k <= |q|
    ensures |r| == |q| + 1
    ensures forall i {:trigger r[i]} :: 0 <= i < |r| ==> r[i] == if i < k then q[i] else if i == k then x else q[i-1]
  {
    q[..k] + [x] + q[k..]
  }

  // ------------------------------------------- segments of a sorted sequence

  ghost predicate Descending(side: Side, ps: seq<nat>) {
    forall i, j :: 0 <= i < j < |ps| ==> !Better(side, ps[j], ps[i])
  }

  ghost predicate IsFirst(ps: seq<nat>, p: nat, f: nat) {
    f <= |ps| && (f < |ps| ==> ps[f] == p) && p !in ps[..f]
  }

  ghost predicate IsEnd(ps: seq<nat>, p: nat, e: nat) {
    e <= |ps| && (e > 0 ==> ps[e-1] == p) && p !in ps[e..]
  }

  lemma {:induction false} FirstExists(ps: seq<nat>, p: nat, n: nat) returns (f: nat)
    requires n <= |ps| && p !in ps[..n]
    ensures IsFirst(ps, p, f)
    decreases |ps| - n
  {
    if n == |ps| || ps[n] == p { f := n; }
    else { assert ps[..n+1] == ps[..n] + [ps[n]]; f := FirstExists(ps, p, n + 1); }
  }

  lemma {:induction false} EndExists(ps: seq<nat>, p: nat, n: nat) returns (e: nat)
    requires n <= |ps| && p !in ps[n..]
    ensures IsEnd(ps, p, e)
    decreases n
  {
    if n == 0 || ps[n-1] == p { e := n; }
    else { assert ps[n-1..] == [ps[n-1]] + ps[n..]; e := EndExists(ps, p, n - 1); }
  }

  /** First index of `p`, or the length. */
  ghost function First(ps: seq<nat>, p: nat): (f: nat)
    ensures IsFirst(ps, p, f)
  {
    assert exists f :: IsFirst(ps, p, f) by { var f := FirstExists(ps, p, 0); }
    var f :| IsFirst(ps, p, f);
    f
  }

  /** One past the last index of `p`, or zero. */
  ghost function End(ps: seq<nat>, p: nat): (e: nat)
    ensures IsEnd(ps, p, e)
  {
    assert exists e :: IsEnd(ps, p, e) by { var e := EndExists(ps, p, |ps|); }
    var e :| IsEnd(ps, p, e);
    e
  }

  lemma FirstIs(ps: seq<nat>, p: nat, f: nat)
    requires f <= |ps| && (f < |ps| ==> ps[f] == p) && forall i :: 0 <= i < f ==> ps[i] != p
    ensures First(ps, p) == f
  {
    var g := First(ps, p);
    FirstSkips(ps, p);
  }

  lemma EndIs(ps: seq<nat>, p: nat, e: nat)
    requires e <= |ps| && (e > 0 ==> ps[e-1] == p) && forall i :: e <= i < |ps| ==> ps[i] != p
    ensures End(ps, p) == e
  {
    var g := End(ps, p);
    assert forall i :: g <= i < |ps| ==> ps[i] == ps[g..][i-g] != p;
  }

  lemma FirstSkips(ps: seq<nat>, p: nat)
    ensures forall i :: 0 <= i < First(ps, p) ==> ps[i] != p
  {
    var f := First(ps, p);
    forall i | 0 <= i < f ensures ps[i] != p { assert ps[i] == ps[..f][i]; }
  }

  lemma EndSkips(ps: seq<nat>, p: nat)
    ensures forall i :: End(ps, p) <= i < |ps| ==> ps[i] != p
  {
    var e := End(ps, p);
    forall i | e <= i < |ps| ensures ps[i] != p { assert ps[i] == ps[e..][i-e]; }
  }

  lemma FirstRemoveSame(side: Side, ps: seq<nat>, k: nat)
    requires k < |ps| && Descending(side, ps)
    ensures var f := First(ps, ps[k]);
      f <= k && First(RemoveAt(ps, k), ps[k])
         == if f < k then f else if k + 1 < |ps| && ps[k+1] == ps[k] then k else |ps| - 1
  {
    var p, f, r := ps[k], First(ps, ps[k]), RemoveAt(ps, k);
    FirstSkips(ps, p);
    if f < k { FirstIs(r, p, f); }
    else if k + 1 < |ps| && ps[k+1] == p { FirstIs(r, p, k); }
    else {
      forall i | 0 <= i < |r| ensures r[i] != p {
        if i >= k { assert ps[i+1] != p by { if i > k { assert ps[k+1] != p; } } }
      }
      FirstIs(r, p, |r|);
    }
  }

  lemma EndRemoveSame(side: Side, ps: seq<nat>, k: nat)
    requires k < |ps| && Descending(side, ps)
    ensures var e := End(ps, ps[k]);
      k < e && End(RemoveAt(ps, k), ps[k])
         == if k < e - 1 then e - 1 else if k > 0 && ps[k-1] == ps[k] then k else 0
  {
    var p, e, r := ps[k], End(ps, ps[k]), RemoveAt(ps, k);
    EndSkips(ps, p);
    if k < e - 1 { EndIs(r, p, e - 1); }
    else if k > 0 && ps[k-1] == p { EndIs(r, p, k); }
    else {
      forall i | 0 <= i < |r| ensures r[i] != p {
        if i < k { assert ps[i] != p by { if i < k - 1 { assert ps[k-1] != p; } } }
      }
      EndIs(r, p, 0);
    }
  }

  lemma FirstRemoveOther(ps: seq<nat>, k: nat, p: nat)
    requires k < |ps| && ps[k] != p
    ensures var f := First(ps, p); First(RemoveAt(ps, k), p) == if f <= k then f else f - 1
  {
    var f := First(ps, p);
    FirstSkips(ps, p);
    FirstIs(RemoveAt(ps, k), p, if f <= k then f else f - 1);
  }

  lemma EndRemoveOther(ps: seq<nat>, k: nat, p: nat)
    requires k < |ps| && ps[k] != p
    ensures var e := End(ps, p); End(RemoveAt(ps, k), p) == if e <= k then e else e - 1
  {
    var e := End(ps, p);
    EndSkips(ps, p);
    EndIs(RemoveAt(ps, k), p, if e <= k then e else e - 1);
  }

  /** `k` is where a new `p` goes: behind everything that is not strictly worse. */
  ghost predicate Slot(side: Side, ps: seq<nat>, p: nat, k: nat) {
    && k <= |ps|
    && (forall i :: 0 <= i < k ==> !Better(side, p, ps[i]))
    && (forall i :: k <= i < |ps| ==> Better(side, p, ps[i]))
  }

  lemma InsertSame(side: Side, ps: seq<nat>, k: nat, p: nat)
    requires Descending(side, ps) && Slot(side, ps, p, k)
    ensures var f := First(ps, p); var e := End(ps, p); var r := InsertAt(ps, k, p);
      && (f == |ps| <==> e == 0)
      && (f < |ps| ==> f < k && e == k)
      && First(r, p) == (if f < |ps| then f else k)
      && End(r, p) == k + 1
  {
    var f, e, r := First(ps, p), End(ps, p), InsertAt(ps, k, p);
    FirstSkips(ps, p);
    EndSkips(ps, p);
    EndIs(r, p, k + 1);
    if f < |ps| {
      assert e > f && f < k;
      assert ps[k-1] == p;
      EndIs(ps, p, k);
      FirstIs(r, p, f);
    } else {
      EndIs(ps, p, 0);
      FirstIs(r, p, k);
    }
  }

  lemma InsertOther(ps: seq<nat>, k: nat, y: nat, p: nat)
    requires k <= |ps| && y != p
    ensures var f := First(ps, p); var e := End(ps, p); var r := InsertAt(ps, k, y);
      && First(r, p) == (if f < k then f else f + 1)
      && End(r, p) == (if e <= k then e else e + 1)
  {
    var f, e, r := First(ps, p), End(ps, p), InsertAt(ps, k, y);
    FirstSkips(ps, p);
    EndSkips(ps, p);
    FirstIs(r, p, if f < k then f else f + 1);
    EndIs(r, p, if e <= k then e else e + 1);
  }

  // ------------------------------------------------------------- free list

  ghost predicate FreeLink(pool: Pool, free: seq<nat>, i: nat)
    requires InPool(pool, free) && i < |free|
  {
    pool[free[i]].next == if i + 1 < |free| then free[i+1] else NIL
  }

  ghost predicate FreeList(pool: Pool, head: int, free: seq<nat>) {
    && InPool(pool, free)
    && head == (if free == [] then NIL else free[0])
    && forall i {:trigger FreeLink(pool, free, i)} :: 0 <= i < |free| ==> FreeLink(pool, free, i)
  }

  lemma FreeFrame(pool: Pool, pool': Pool, head: int, free: seq<nat>)
    requires FreeList(pool, head, free) && |pool'| == |pool|
    requires forall i :: 0 <= i < |free| ==> pool'[free[i]] == pool[free[i]]
    ensures FreeList(pool', head, free)
  {
    forall i | 0 <= i < |free| ensures FreeLink(pool', free, i) { assert FreeLink(pool, free, i); }
  }

  lemma FreePop(pool: Pool, head: int, free: seq<nat>)
    requires FreeList(pool, head, free) && free != []
    ensures FreeList(pool, pool[head].next, free[1..])
  {
    assert FreeLink(pool, free, 0);
    forall i | 0 <= i < |free| - 1 ensures FreeLink(pool, free[1..], i) { assert FreeLink(pool, free, i + 1); }
  }

  lemma FreePush(pool: Pool, head: int, free: seq<nat>, x: nat)
    requires FreeList(pool, head, free) && x < |pool| && x !in free
    ensures FreeList(pool[x := pool[x].(next := head)], x, [x] + free)
  {
    var pool' := pool[x := pool[x].(next := head)];
    var free' := [x] + free;
    forall i | 0 <= i < |free'| ensures FreeLink(pool', free', i) {
      if i > 0 { assert FreeLink(pool, free, i - 1); }
    }
  }

  // ---------------------------------------------------------- level queues

  ghost predicate SameLevel(pool: Pool, q: seq<nat>, i: int)
    requires InPool(pool, q)
  {
    0 <= i && i + 1 < |q| && pool[q[i]].price == pool[q[i+1]].price
  }

  ghost predicate Linked(pool: Pool, q: seq<nat>, i: nat)
    requires InPool(pool, q) && i < |q|
  {
    && pool[q[i]].next == (if SameLevel(pool, q, i) then q[i+1] else NIL)
    && pool[q[i]].prev == (if SameLevel(pool, q, i - 1) then q[i-1] else NIL)
  }

  ghost predicate Chained(pool: Pool, q: seq<nat>) {
    && InPool(pool, q)
    && forall i {:trigger Linked(pool, q, i)} :: 0 <= i < |q| ==> Linked(pool, q, i)
  }

  function Prices(pool: Pool, q: seq<nat>): (ps: seq<nat>)
    requires InPool(pool, q)
    ensures |ps| == |q|
    ensures forall i :: 0 <= i < |q| ==> ps[i] == pool[q[i]].price
  {
    seq(|q|, i requires 0 <= i < |q| => pool[q[i]].price)
  }

  ghost predicate Ordered(side: Side, pool: Pool, q: seq<nat>) {
    && InPool(pool, q)
    && (forall i :: 0 <= i < |q| ==> pool[q[i]].side == side)
    && Descending(side, Prices(pool, q))
  }

  ghost function Volume(pool: Pool, q: seq<nat>, p: nat): nat
    requires InPool(pool, q)
  {
    if q == [] then 0
    else (if pool[q[0]].price == p then pool[q[0]].qty else 0) + Volume(pool, q[1..], p)
  }

  /** The list pointers of a level delimit the nodes of `q` at its price. */
  ghost predicate EndsOk(ps: seq<nat>, q: seq<nat>, p: nat, lv: PriceLevel)
    requires |ps| == |q|
  {
    && lv.price == p
    && lv.head == (var f := First(ps, p); if f < |q| then q[f] else NIL)
    && lv.tail == (var e := End(ps, p); if e > 0 then q[e-1] else NIL)
  }

  /** The levels are those of the queue; only the level `hole` may be empty. */
  ghost predicate LevelsOk(ps: seq<nat>, q: seq<nat>, levels: Levels, hole: int)
    requires |ps| == |q|
  {
    && (forall i :: 0 <= i < |ps| ==> ps[i] in levels)
    && (forall p :: p in levels ==> EndsOk(ps, q, p, levels[p]))
    && (forall p :: p in levels && p != hole ==> levels[p].head != NIL)
  }

  ghost predicate VolumesOk(pool: Pool, q: seq<nat>, levels: Levels)
    requires InPool(pool, q)
  {
    forall p :: p in levels ==> levels[p].totalVolume == Wrap(Volume(pool, q, p))
  }

  ghost predicate ListOk(side: Side, pool: Pool, q: seq<nat>) {
    NoTwice(q) && Ordered(side, pool, q) && Chained(pool, q)
  }

  /** One side: its lists, its levels and its queue agree. */
  ghost predicate SideOk(side: Side, pool: Pool, q: seq<nat>, levels: Levels, hole: int) {
    ListOk(side, pool, q) && LevelsOk(Prices(pool, q), q, levels, hole) && VolumesOk(pool, q, levels)
  }

  /** `total_volume` is the sum of the level's quantities as a 32-bit number: exact below 2^32. */
  lemma {:induction false} VolumeIsSum(side: Side, pool: Pool, q: seq<nat>, levels: Levels, hole: int, p: nat)
    requires SideOk(side, pool, q, levels, hole) && p in levels
    ensures var v := levels[p].totalVolume;
      && v < 0x1_0000_0000 && (Volume(pool, q, p) - v) % 0x1_0000_0000 == 0
      && (Volume(pool, q, p) < 0x1_0000_0000 ==> v == Volume(pool, q, p))
  {
    hide Volume, Wrap, LevelsOk, Chained, NoTwice;
    WrapIs(Volume(pool, q, p));
  }

  lemma WrapIs(x: nat)
    ensures Wrap(x) < 0x1_0000_0000 && (x - Wrap(x)) % 0x1_0000_0000 == 0 && (x < 0x1_0000_0000 ==> Wrap(x) == x)
  {}

  ghost predicate SameTerms(a: Order, b: Order) {
    a.price == b.price && a.qty == b.qty
  }

  lemma {:induction false} VolumeConcat(pool: Pool, a: seq<nat>, b: seq<nat>, p: nat)
    requires InPool(pool, a) && InPool(pool, b) && InPool(pool, a + b)
    ensures Volume(pool, a + b, p) == Volume(pool, a, p) + Volume(pool, b, p)
  {
    if a == [] { assert a + b == b; }
    else { assert (a + b)[1..] == a[1..] + b; VolumeConcat(pool, a[1..], b, p); }
  }

  lemma VolumeCons(pool: Pool, x: nat, q: seq<nat>, p: nat)
    requires x < |pool| && InPool(pool, q)
    ensures InPool(pool, [x] + q)
    ensures Volume(pool, [x] + q, p) == (if pool[x].price == p then pool[x].qty else 0) + Volume(pool, q, p)
  {
    assert ([x] + q)[1..] == q;
  }

  lemma {:induction false} VolumeFrame(pool: Pool, pool': Pool, q: seq<nat>, p: nat)
    requires InPool(pool, q) && InPool(pool', q)
    requires forall i :: 0 <= i < |q| ==> SameTerms(pool'[q[i]], pool[q[i]])
    ensures Volume(pool', q, p) == Volume(pool, q, p)
  {
    if q != [] { VolumeFrame(pool, pool', q[1..], p); }
  }

  ghost predicate SameShape(a: Order, b: Order) {
    a.price == b.price && a.side == b.side && a.prev == b.prev && a.next == b.next
  }

  lemma ShapeFrame(side: Side, pool: Pool, pool': Pool, q: seq<nat>)
    requires Ordered(side, pool, q) && Chained(pool, q) && |pool'| == |pool|
    requires forall i :: 0 <= i < |q| ==> SameShape(pool'[q[i]], pool[q[i]])
    ensures Ordered(side, pool', q) && Chained(pool', q) && Prices(pool', q) == Prices(pool, q)
  {
    forall i | 0 <= i < |q| ensures Linked(pool', q, i) { assert Linked(pool, q, i); }
    assert Prices(pool', q) == Prices(pool, q);
  }

  lemma VolumesFrame(pool: Pool, pool': Pool, q: seq<nat>, levels: Levels)
    requires InPool(pool, q) && InPool(pool', q) && VolumesOk(pool, q, levels)
    requires forall i :: 0 <= i < |q| ==> SameTerms(pool'[q[i]], pool[q[i]])
    ensures VolumesOk(pool', q, levels)
  {
    forall p | p in levels ensures levels[p].totalVolume == Wrap(Volume(pool', q, p)) {
      VolumeFrame(pool, pool', q, p);
    }
  }

  lemma SideFrame(side: Side, pool: Pool, pool': Pool, q: seq<nat>, levels: Levels, hole: int)
    requires SideOk(side, pool, q, levels, hole) && |pool'| == |pool|
    requires forall i :: 0 <= i < |q| ==> pool'[q[i]] == pool[q[i]]
    ensures SideOk(side, pool', q, levels, hole)
  {
    ShapeFrame(side, pool, pool', q);
    VolumesFrame(pool, pool', q, levels);
  }

  // ---------------------------------------------------------- partial fill

  lemma VolumeSetQty(pool: Pool, q: seq<nat>, k: nat, v: nat, p: nat)
    requires InPool(pool, q) && NoTwice(q) && k < |q|
    ensures var pool' := pool[q[k] := pool[q[k]].(qty := v)];
      InPool(pool', q) &&
      Volume(pool', q, p) == Volume(pool, q, p) + (if pool[q[k]].price == p then v - pool[q[k]].qty else 0)
  {
    var x := q[k];
    var pool' := pool[x := pool[x].(qty := v)];
    assert q == q[..k] + ([x] + q[k+1..]);
    VolumeConcat(pool, q[..k], [x] + q[k+1..], p);
    VolumeConcat(pool', q[..k], [x] + q[k+1..], p);
    VolumeFrame(pool, pool', q[..k], p);
    VolumeFrame(pool, pool', q[k+1..], p);
    assert ([x] + q[k+1..])[1..] == q[k+1..];
  }

  function Filled(pool: Pool, x: nat, d: nat): Pool
    requires x < |pool| && d <= pool[x].qty
  {
    pool[x := pool[x].(qty := pool[x].qty - d)]
  }

  function Shrunk(levels: Levels, p: nat, d: nat): Levels
    requires p in levels
  {
    levels[p := levels[p].(totalVolume := Wrap(levels[p].totalVolume - d))]
  }

  lemma FillVolumes(pool: Pool, q: seq<nat>, levels: Levels, k: nat, d: nat)
    requires InPool(pool, q) && NoTwice(q) && k < |q| && d <= pool[q[k]].qty
    requires VolumesOk(pool, q, levels) && pool[q[k]].price in levels
    ensures var pool' := Filled(pool, q[k], d);
      InPool(pool', q) && VolumesOk(pool', q, Shrunk(levels, pool[q[k]].price, d))
  {
    var x := q[k];
    var pool', levels' := Filled(pool, x, d), Shrunk(levels, pool[x].price, d);
    forall p | p in levels' ensures levels'[p].totalVolume == Wrap(Volume(pool', q, p)) {
      VolumeSetQty(pool, q, k, pool[x].qty - d, p);
      WrapAdd(Volume(pool, q, p), 0 - d);
    }
  }

  /** Lower the quantity of one node and the volume of its level by the same amount. */
  lemma FillKeepsSide(side: Side, pool: Pool, q: seq<nat>, levels: Levels, hole: int, k: nat, d: nat)
    requires SideOk(side, pool, q, levels, hole) && k < |q| && d <= pool[q[k]].qty
    ensures pool[q[k]].price in levels
    ensures SideOk(side, Filled(pool, q[k], d), q, Shrunk(levels, pool[q[k]].price, d), hole)
  {
    var pool', ps := Filled(pool, q[k], d), Prices(pool, q);
    assert ps[k] in levels;
    assert forall i :: 0 <= i < |q| ==> SameShape(pool'[q[i]], pool[q[i]]);
    ShapeFrame(side, pool, pool', q);
    FillVolumes(pool, q, levels, k, d);
    ShrunkEnds(ps, q, levels, hole, ps[k], d);
    var levels' := Shrunk(levels, ps[k], d);
    assert LevelsOk(Prices(pool', q), q, levels', hole);
    assert SideOk(side, pool', q, levels', hole);
  }

  lemma ShrunkEnds(ps: seq<nat>, q: seq<nat>, levels: Levels, hole: int, p: nat, d: nat)
    requires |ps| == |q| && LevelsOk(ps, q, levels, hole) && p in levels
    ensures LevelsOk(ps, q, Shrunk(levels, p, d), hole)
  {
    var levels' := Shrunk(levels, p, d);
    forall r | r in levels' ensures EndsOk(ps, q, r, levels'[r]) { assert EndsOk(ps, q, r, levels[r]); }
  }

  // --------------------------------------------------------------- removal

  predicate LinkInRange(pool: Pool, x: nat) {
    x < |pool| && -1 <= pool[x].prev < |pool| && -1 <= pool[x].next < |pool|
  }

  /** The neighbours of `x` bypass it. */
  function Unlinked(pool: Pool, x: nat): (pool': Pool)
    requires LinkInRange(pool, x)
    ensures |pool'| == |pool|
  {
    var o := pool[x];
    var p1 := if o.prev != NIL then pool[o.prev := pool[o.prev].(next := o.next)] else pool;
    if o.next != NIL then p1[o.next := p1[o.next].(prev := o.prev)] else p1
  }

  function RemovedLevel(lv: PriceLevel, o: Order, x: nat): PriceLevel {
    PriceLevel(lv.price, Wrap(lv.totalVolume - o.qty),
      if lv.head == x then o.next else lv.head,
      if lv.tail == x then o.prev else lv.tail)
  }

  ghost predicate SameData(a: Order, b: Order) {
    a.(prev := b.prev, next := b.next) == b
  }

  lemma UnlinkedFrame(pool: Pool, q: seq<nat>, k: nat)
    requires Chained(pool, q) && NoTwice(q) && k < |q|
    ensures LinkInRange(pool, q[k])
    ensures var pool' := Unlinked(pool, q[k]);
      && |pool'| == |pool|
      && (forall y :: 0 <= y < |pool| ==> SameData(pool'[y], pool[y]))
      && (forall y :: 0 <= y < |pool| && y !in q ==> pool'[y] == pool[y])
      && pool'[q[k]] == pool[q[k]]
  {
    assert Linked(pool, q, k);
  }

  /** The node at index `i` once the node at `k` is gone. */
  function Closed(k: nat, i: nat): nat { if i < k then i else i + 1 }

  /** The links of another node of the list after `Unlinked`. */
  lemma UnlinkedNode(pool: Pool, q: seq<nat>, k: nat, j: nat)
    requires InPool(pool, q) && NoTwice(q) && k < |q| && j < |q| && j != k && Linked(pool, q, k)
    requires LinkInRange(pool, q[k])
    ensures |Unlinked(pool, q[k])| == |pool|
    ensures var o := Unlinked(pool, q[k])[q[j]];
      && o.next == (if j + 1 == k && SameLevel(pool, q, j) then pool[q[k]].next else pool[q[j]].next)
      && o.prev == (if j == k + 1 && SameLevel(pool, q, k) then pool[q[k]].prev else pool[q[j]].prev)
      && o.price == pool[q[j]].price
  {
    assert q[j] != q[k] by { if j < k {} else {} }
  }

  lemma UnlinkedPrices(pool: Pool, q: seq<nat>, k: nat)
    requires InPool(pool, q) && k < |q| && LinkInRange(pool, q[k])
    ensures |Unlinked(pool, q[k])| == |pool| && InPool(Unlinked(pool, q[k]), RemoveAt(q, k))
    ensures forall y :: 0 <= y < |pool| ==> Unlinked(pool, q[k])[y].price == pool[y].price
  {}

  /** Neighbours on one level after the node at `k` is gone. */
  lemma {:induction false} ClosedLevel(pool: Pool, pool': Pool, q: seq<nat>, k: nat, i: int)
    requires InPool(pool, q) && k < |q| && |pool'| == |pool| && InPool(pool', RemoveAt(q, k)) && -1 <= i < |q| - 1
    requires forall y :: 0 <= y < |pool| ==> pool'[y].price == pool[y].price
    ensures SameLevel(pool', RemoveAt(q, k), i) == if i + 1 < k then SameLevel(pool, q, i)
              else if k <= i then SameLevel(pool, q, i + 1)
              else 0 < k && k + 1 < |q| && pool[q[k-1]].price == pool[q[k+1]].price
  {
    hide RemoveAt;
    var q' := RemoveAt(q, k);
    if 0 <= i && i + 1 < |q'| { assert q'[i] == q[Closed(k, i)] && q'[i+1] == q[Closed(k, i + 1)]; }
  }

  lemma {:induction false} UnlinkedNext(pool: Pool, q: seq<nat>, k: nat, i: nat, j: nat)
    requires InPool(pool, q) && NoTwice(q) && k < |q| && i < |q| - 1 && j == Closed(k, i)
    requires Linked(pool, q, k) && Linked(pool, q, j) && LinkInRange(pool, q[k])
    requires 0 < k && k + 1 < |q| && pool[q[k-1]].price == pool[q[k+1]].price ==> pool[q[k]].price == pool[q[k+1]].price
    ensures var pool', q' := Unlinked(pool, q[k]), RemoveAt(q, k);
      && InPool(pool', q')
      && pool'[q'[i]].next == (if SameLevel(pool', q', i) then q'[i+1] else NIL)
  {
    UnlinkedNode(pool, q, k, j);
    UnlinkedPrices(pool, q, k);
    hide Unlinked, NoTwice, RemoveAt;
    ClosedLevel(pool, Unlinked(pool, q[k]), q, k, i);
    var q' := RemoveAt(q, k);
    assert q'[i] == q[j];
    if i + 1 < |q'| { assert q'[i+1] == q[Closed(k, i + 1)]; }
  }

  lemma {:induction false} UnlinkedPrev(pool: Pool, q: seq<nat>, k: nat, i: nat, j: nat)
    requires InPool(pool, q) && NoTwice(q) && k < |q| && i < |q| - 1 && j == Closed(k, i)
    requires Linked(pool, q, k) && Linked(pool, q, j) && LinkInRange(pool, q[k])
    requires 0 < k && k + 1 < |q| && pool[q[k-1]].price == pool[q[k+1]].price ==> pool[q[k]].price == pool[q[k+1]].price
    ensures var pool', q' := Unlinked(pool, q[k]), RemoveAt(q, k);
      && InPool(pool', q')
      && pool'[q'[i]].prev == (if SameLevel(pool', q', i - 1) then q'[i-1] else NIL)
  {
    UnlinkedNode(pool, q, k, j);
    UnlinkedPrices(pool, q, k);
    hide Unlinked, NoTwice, RemoveAt;
    ClosedLevel(pool, Unlinked(pool, q[k]), q, k, i - 1);
    var q' := RemoveAt(q, k);
    assert q'[i] == q[j];
    if i > 0 { assert q'[i-1] == q[Closed(k, i - 1)]; }
  }

  /** One link of the list after `Unlinked`; `j` is the old index of the node. */
  lemma {:induction false} UnlinkedLink(pool: Pool, q: seq<nat>, k: nat, i: nat, j: nat)
    requires InPool(pool, q) && NoTwice(q) && k < |q| && i < |q| - 1 && j == Closed(k, i)
    requires Linked(pool, q, k) && Linked(pool, q, j) && LinkInRange(pool, q[k])
    requires 0 < k && k + 1 < |q| && pool[q[k-1]].price == pool[q[k+1]].price ==> pool[q[k]].price == pool[q[k+1]].price
    ensures var pool' := Unlinked(pool, q[k]);
      InPool(pool', RemoveAt(q, k)) && Linked(pool', RemoveAt(q, k), i)
  {
    hide Unlinked, NoTwice, RemoveAt, SameLevel;
    UnlinkedNext(pool, q, k, i, j);
    UnlinkedPrev(pool, q, k, i, j);
  }

  lemma UnlinkedChain(side: Side, pool: Pool, q: seq<nat>, k: nat)
    requires Chained(pool, q) && NoTwice(q) && Ordered(side, pool, q) && k < |q|
    ensures LinkInRange(pool, q[k]) && Chained(Unlinked(pool, q[k]), RemoveAt(q, k))
  {
    var ps := Prices(pool, q);
    if 0 < k && k + 1 < |q| {
      assert !Better(side, ps[k], ps[k-1]) && !Better(side, ps[k+1], ps[k]);
    }
    assert Linked(pool, q, k);
    var pool', q' := Unlinked(pool, q[k]), RemoveAt(q, k);
    forall i | 0 <= i < |q'| ensures Linked(pool', q', i) {
      var j := Closed(k, i);
      assert Linked(pool, q, j);
      UnlinkedLink(pool, q, k, i, j);
    }
  }

  lemma {:induction false} VolumeRemove(pool: Pool, q: seq<nat>, k: nat, p: nat)
    requires InPool(pool, q) && k < |q|
    ensures InPool(pool, RemoveAt(q, k))
    ensures Volume(pool, q, p)
         == Volume(pool, RemoveAt(q, k), p) + if pool[q[k]].price == p then pool[q[k]].qty else 0
  {
    hide Volume;
    var a, b := q[..k], q[k+1..];
    assert q == a + ([q[k]] + b);
    VolumeConcat(pool, a, [q[k]] + b, p);
    VolumeConcat(pool, a, b, p);
    VolumeCons(pool, q[k], b, p);
  }

  lemma RemoveEnds(side: Side, ps: seq<nat>, q: seq<nat>, k: nat, lv: PriceLevel, o: Order)
    requires |ps| == |q| && k < |q| && NoTwice(q) && Descending(side, ps) && EndsOk(ps, q, ps[k], lv)
    requires o.next == (if k + 1 < |q| && ps[k] == ps[k+1] then q[k+1] else NIL)
    requires o.prev == (if k > 0 && ps[k-1] == ps[k] then q[k-1] else NIL)
    ensures EndsOk(RemoveAt(ps, k), RemoveAt(q, k), ps[k], RemovedLevel(lv, o, q[k]))
  {
    FirstRemoveSame(side, ps, k);
    EndRemoveSame(side, ps, k);
    var f, e := First(ps, ps[k]), End(ps, ps[k]);
    assert f < k ==> q[f] != q[k];
    assert k < e - 1 ==> q[e-1] != q[k];
    NewEnds(ps, q, k, lv, o, f, e);
  }

  lemma NewEnds(ps: seq<nat>, q: seq<nat>, k: nat, lv: PriceLevel, o: Order, f: nat, e: nat)
    requires |ps| == |q| && f <= k < e <= |q| && lv.price == ps[k]
    requires lv.head == q[f] && lv.tail == q[e-1]
    requires f < k ==> q[f] != q[k]
    requires k < e - 1 ==> q[e-1] != q[k]
    requires o.next == (if k + 1 < |q| && ps[k] == ps[k+1] then q[k+1] else NIL)
    requires o.prev == (if k > 0 && ps[k-1] == ps[k] then q[k-1] else NIL)
    requires First(RemoveAt(ps, k), ps[k])
          == if f < k then f else if k + 1 < |ps| && ps[k+1] == ps[k] then k else |ps| - 1
    requires End(RemoveAt(ps, k), ps[k])
          == if k < e - 1 then e - 1 else if k > 0 && ps[k-1] == ps[k] then k else 0
    ensures EndsOk(RemoveAt(ps, k), RemoveAt(q, k), ps[k], RemovedLevel(lv, o, q[k]))
  {
    hide First, End, Wrap;
  }

  lemma RemoveOtherEnds(ps: seq<nat>, q: seq<nat>, k: nat, p: nat, lv: PriceLevel)
    requires |ps| == |q| && k < |q| && EndsOk(ps, q, p, lv) && ps[k] != p
    ensures EndsOk(RemoveAt(ps, k), RemoveAt(q, k), p, lv)
  {
    FirstRemoveOther(ps, k, p);
    EndRemoveOther(ps, k, p);
  }

  lemma RemoveLevels(side: Side, ps: seq<nat>, q: seq<nat>, levels: Levels, hole: int, k: nat, o: Order)
    requires |ps| == |q| && k < |q| && NoTwice(q) && Descending(side, ps) && LevelsOk(ps, q, levels, hole)
    requires hole == NIL || hole == ps[k]
    requires o.next == (if k + 1 < |q| && ps[k] == ps[k+1] then q[k+1] else NIL)
    requires o.prev == (if k > 0 && ps[k-1] == ps[k] then q[k-1] else NIL)
    ensures ps[k] in levels
    ensures LevelsOk(RemoveAt(ps, k), RemoveAt(q, k),
                     levels[ps[k] := RemovedLevel(levels[ps[k]], o, q[k])], ps[k])
  {
    assert ps[k] in levels;
    var levels' := levels[ps[k] := RemovedLevel(levels[ps[k]], o, q[k])];
    forall r | r in levels' ensures EndsOk(RemoveAt(ps, k), RemoveAt(q, k), r, levels'[r]) {
      assert EndsOk(ps, q, r, levels[r]);
      if r == ps[k] { RemoveEnds(side, ps, q, k, levels[r], o); }
      else { RemoveOtherEnds(ps, q, k, r, levels[r]); }
    }
  }

  lemma RemoveVolumes(pool: Pool, q: seq<nat>, levels: Levels, k: nat, pool': Pool)
    requires InPool(pool, q) && k < |q| && VolumesOk(pool, q, levels) && pool[q[k]].price in levels
    requires InPool(pool', RemoveAt(q, k))
    requires forall i :: 0 <= i < |q| && i != k ==> q[i] < |pool'| && SameTerms(pool'[q[i]], pool[q[i]])
    ensures var x := q[k]; var p := pool[x].price;
      VolumesOk(pool', RemoveAt(q, k), levels[p := RemovedLevel(levels[p], pool[x], x)])
  {
    var x, p, q' := q[k], pool[q[k]].price, RemoveAt(q, k);
    var levels' := levels[p := RemovedLevel(levels[p], pool[x], x)];
    forall r | r in levels' ensures levels'[r].totalVolume == Wrap(Volume(pool', q', r)) {
      VolumeRemove(pool, q, k, r);
      VolumeFrame(pool, pool', q', r);
      WrapAdd(Volume(pool, q, r), 0 - pool[x].qty);
    }
  }

  lemma RemoveOrdered(side: Side, pool: Pool, q: seq<nat>, k: nat)
    requires NoTwice(q) && Ordered(side, pool, q) && k < |q|
    ensures NoTwice(RemoveAt(q, k)) && Ordered(side, pool, RemoveAt(q, k))
    ensures Prices(pool, RemoveAt(q, k)) == RemoveAt(Prices(pool, q), k)
  {
    assert Prices(pool, RemoveAt(q, k)) == RemoveAt(Prices(pool, q), k);
  }

  lemma ChainFrame(pool: Pool, pool': Pool, q: seq<nat>)
    requires Chained(pool, q) && InPool(pool', q) && forall i :: 0 <= i < |q| ==> pool'[q[i]] == pool[q[i]]
    ensures Chained(pool', q)
  {
    forall i | 0 <= i < |q| ensures Linked(pool', q, i) { assert Linked(pool, q, i); }
  }

  lemma RemoveList(side: Side, pool: Pool, q: seq<nat>, k: nat, pool': Pool)
    requires ListOk(side, pool, q) && k < |q| && LinkInRange(pool, q[k]) && |pool'| == |pool|
    requires forall y :: 0 <= y < |pool| && y != q[k] ==> pool'[y] == Unlinked(pool, q[k])[y]
    ensures ListOk(side, pool', RemoveAt(q, k))
    ensures Prices(pool', RemoveAt(q, k)) == RemoveAt(Prices(pool, q), k)
    ensures forall i :: 0 <= i < |q| && i != k ==> SameTerms(pool'[q[i]], pool[q[i]])
  {
    var q' := RemoveAt(q, k);
    UnlinkedFrame(pool, q, k);
    UnlinkedChain(side, pool, q, k);
    RemoveOrdered(side, pool, q, k);
    forall i | 0 <= i < |q| && i != k ensures SameData(pool'[q[i]], pool[q[i]]) {
      assert SameData(Unlinked(pool, q[k])[q[i]], pool[q[i]]);
    }
    ChainFrame(Unlinked(pool, q[k]), pool', q');
    assert Prices(pool', q') == Prices(pool, q');
    assert Ordered(side, pool', q');
  }

  /** `Limit::remove`: the node leaves its list, its level and the queue of its side. What happens to
      the removed node itself afterwards does not matter to the side. */
  lemma RemoveKeepsSide(side: Side, pool: Pool, q: seq<nat>, levels: Levels, hole: int, k: nat, pool': Pool)
    requires SideOk(side, pool, q, levels, hole) && k < |q|
    requires hole == NIL || hole == pool[q[k]].price
    requires LinkInRange(pool, q[k]) && |pool'| == |pool|
    requires forall y :: 0 <= y < |pool| && y != q[k] ==> pool'[y] == Unlinked(pool, q[k])[y]
    ensures pool[q[k]].price in levels
    ensures var x := q[k]; var p := pool[x].price;
      SideOk(side, pool', RemoveAt(q, k), levels[p := RemovedLevel(levels[p], pool[x], x)], p)
  {
    RemoveList(side, pool, q, k, pool');
    assert Linked(pool, q, k);
    RemoveLevels(side, Prices(pool, q), q, levels, hole, k, pool[q[k]]);
    RemoveVolumes(pool, q, levels, k, pool');
  }

  /** Dropping an empty level, or keeping a level that is not empty, closes the hole. */
  lemma CloseHole(side: Side, pool: Pool, q: seq<nat>, levels: Levels, hole: nat)
    requires SideOk(side, pool, q, levels, hole) && hole in levels
    ensures levels[hole].head == NIL ==> SideOk(side, pool, q, levels - {hole}, NIL)
    ensures levels[hole].head != NIL ==> SideOk(side, pool, q, levels, NIL)
  {
    assert EndsOk(Prices(pool, q), q, hole, levels[hole]);
    if levels[hole].head == NIL {
      FirstSkips(Prices(pool, q), hole);
      assert forall i :: 0 <= i < |q| ==> pool[q[i]].price != hole;
    }
  }

  // ------------------------------------------------------------- appending

  function AppendedLevel(lv: PriceLevel, x: nat, qty: nat): PriceLevel {
    PriceLevel(lv.price, Wrap(lv.totalVolume + qty), if lv.head == NIL then x else lv.head, x)
  }

  function AppendedPool(pool: Pool, lv: PriceLevel, x: nat): Pool
    requires x < |pool| && -1 <= lv.tail < |pool|
  {
    if lv.head == NIL then pool
    else
      var p1 := if lv.tail >= 0 then pool[lv.tail := pool[lv.tail].(next := x)] else pool;
      p1[x := p1[x].(prev := lv.tail)]
  }

  /** `k` is where the queue of the side takes an order of price `p`. */
  ghost predicate TailPos(side: Side, pool: Pool, q: seq<nat>, p: nat, k: nat)
    requires InPool(pool, q)
  {
    Slot(side, Prices(pool, q), p, k)
  }

  /** A node that is about to be appended: not in the queue, unlinked, tagged with its side. */
  ghost predicate Ready(side: Side, pool: Pool, q: seq<nat>, x: nat) {
    x < |pool| && x !in q && pool[x].prev == NIL && pool[x].next == NIL && pool[x].side == side
  }

  lemma TailIsBeforePos(side: Side, pool: Pool, q: seq<nat>, k: nat, p: nat, lv: PriceLevel)
    requires Ordered(side, pool, q) && TailPos(side, pool, q, p, k) && EndsOk(Prices(pool, q), q, p, lv)
    ensures lv.head == NIL <==> lv.tail == NIL
    ensures lv.head == NIL ==> forall i :: 0 <= i < |q| ==> pool[q[i]].price != p
    ensures lv.head != NIL ==> k > 0 && lv.tail == q[k-1] && pool[q[k-1]].price == p && End(Prices(pool, q), p) == k
  {
    InsertSame(side, Prices(pool, q), k, p);
  }

  /** One link of the list after the append; `j` is the old index of the node. */
  lemma AppendedLink(pool: Pool, q: seq<nat>, k: nat, x: nat, lv: PriceLevel, i: nat)
    requires InPool(pool, q) && NoTwice(q) && k <= |q| && i <= |q| && x < |pool| && x !in q
    requires pool[x].prev == NIL && pool[x].next == NIL
    requires i < k ==> Linked(pool, q, i)
    requires i > k ==> Linked(pool, q, i - 1)
    requires -1 <= lv.tail < |pool|
    requires lv.head == NIL <==> (k == 0 || pool[q[k-1]].price != pool[x].price)
    requires lv.head != NIL ==> lv.tail == q[k-1]
    requires k < |q| ==> pool[q[k]].price != pool[x].price
    requires 0 < k < |q| ==> pool[q[k-1]].price != pool[q[k]].price
    ensures var pool' := AppendedPool(pool, lv, x);
      InPool(pool', InsertAt(q, k, x)) && Linked(pool', InsertAt(q, k, x), i)
  {
    var pool', q' := AppendedPool(pool, lv, x), InsertAt(q, k, x);
    assert forall y :: 0 <= y < |pool| ==> pool'[y].price == pool[y].price;
    assert q'[i] == if i < k then q[i] else if i == k then x else q[i-1];
    if i + 1 < |q'| { assert q'[i+1] == if i + 1 < k then q[i+1] else if i + 1 == k then x else q[i]; }
    if i > 0 { assert q'[i-1] == if i - 1 < k then q[i-1] else if i - 1 == k then x else q[i-2]; }
  }

  lemma AppendedFrame(pool: Pool, q: seq<nat>, x: nat, lv: PriceLevel)
    requires x < |pool| && -1 <= lv.tail < |pool| && (lv.tail >= 0 ==> lv.tail in q)
    ensures var pool' := AppendedPool(pool, lv, x);
      && |pool'| == |pool|
      && (forall y :: 0 <= y < |pool| ==> SameData(pool'[y], pool[y]))
      && (forall y :: 0 <= y < |pool| && y !in q && y != x ==> pool'[y] == pool[y])
  {}

  lemma AppendedChain(side: Side, pool: Pool, q: seq<nat>, k: nat, x: nat, lv: PriceLevel)
    requires Chained(pool, q) && NoTwice(q) && Ordered(side, pool, q) && Ready(side, pool, q, x)
    requires TailPos(side, pool, q, pool[x].price, k) && EndsOk(Prices(pool, q), q, pool[x].price, lv)
    ensures -1 <= lv.tail < |pool| && (lv.tail >= 0 ==> lv.tail in q)
    ensures Chained(AppendedPool(pool, lv, x), InsertAt(q, k, x))
  {
    var p, ps := pool[x].price, Prices(pool, q);
    TailIsBeforePos(side, pool, q, k, p, lv);
    var pool', q' := AppendedPool(pool, lv, x), InsertAt(q, k, x);
    if k > 0 { assert !Better(side, p, ps[k-1]); }
    if k < |q| { assert Better(side, p, ps[k]); }
    forall i | 0 <= i < |q'| ensures Linked(pool', q', i) {
      if i < k { assert Linked(pool, q, i); }
      if i > k { assert Linked(pool, q, i - 1); }
      AppendedLink(pool, q, k, x, lv, i);
    }
  }

  lemma {:induction false} VolumeInsert(pool: Pool, q: seq<nat>, k: nat, x: nat, p: nat)
    requires InPool(pool, q) && k <= |q| && x < |pool|
    ensures InPool(pool, InsertAt(q, k, x))
    ensures Volume(pool, InsertAt(q, k, x), p)
         == Volume(pool, q, p) + if pool[x].price == p then pool[x].qty else 0
  {
    hide Volume;
    var a, b := q[..k], q[k..];
    assert q == a + b;
    VolumeConcat(pool, a, b, p);
    assert InsertAt(q, k, x) == a + ([x] + b);
    VolumeConcat(pool, a, [x] + b, p);
    VolumeCons(pool, x, b, p);
  }

  lemma AppendEnds(side: Side, ps: seq<nat>, q: seq<nat>, k: nat, p: nat, x: nat, qty: nat, lv: PriceLevel)
    requires |ps| == |q| && Descending(side, ps) && Slot(side, ps, p, k) && EndsOk(ps, q, p, lv)
    ensures EndsOk(InsertAt(ps, k, p), InsertAt(q, k, x), p, AppendedLevel(lv, x, qty))
  {
    InsertSame(side, ps, k, p);
  }

  lemma AppendOtherEnds(ps: seq<nat>, q: seq<nat>, k: nat, p: nat, x: nat, r: nat, lv: PriceLevel)
    requires |ps| == |q| && k <= |q| && r != p && EndsOk(ps, q, r, lv)
    ensures EndsOk(InsertAt(ps, k, p), InsertAt(q, k, x), r, lv)
  {
    InsertOther(ps, k, p, r);
  }

  lemma AppendLevels(side: Side, ps: seq<nat>, q: seq<nat>, levels: Levels, k: nat, p: nat, x: nat, qty: nat)
    requires |ps| == |q| && Descending(side, ps) && Slot(side, ps, p, k)
    requires LevelsOk(ps, q, levels, p) && p in levels
    ensures LevelsOk(InsertAt(ps, k, p), InsertAt(q, k, x), levels[p := AppendedLevel(levels[p], x, qty)], NIL)
  {
    var levels' := levels[p := AppendedLevel(levels[p], x, qty)];
    forall r | r in levels' ensures EndsOk(InsertAt(ps, k, p), InsertAt(q, k, x), r, levels'[r]) {
      assert EndsOk(ps, q, r, levels[r]);
      if r == p { AppendEnds(side, ps, q, k, p, x, qty, levels[p]); }
      else { AppendOtherEnds(ps, q, k, p, x, r, levels[r]); }
    }
  }

  lemma AppendVolumes(pool: Pool, q: seq<nat>, levels: Levels, k: nat, x: nat)
    requires InPool(pool, q) && k <= |q| && x < |pool| && VolumesOk(pool, q, levels) && pool[x].price in levels
    ensures InPool(pool, InsertAt(q, k, x))
    ensures var p := pool[x].price;
      VolumesOk(pool, InsertAt(q, k, x), levels[p := AppendedLevel(levels[p], x, pool[x].qty)])
  {
    var p := pool[x].price;
    var levels' := levels[p := AppendedLevel(levels[p], x, pool[x].qty)];
    forall r | r in levels' ensures levels'[r].totalVolume == Wrap(Volume(pool, InsertAt(q, k, x), r)) {
      VolumeInsert(pool, q, k, x, r);
      WrapAdd(Volume(pool, q, r), pool[x].qty);
    }
  }

  lemma AppendOrdered(side: Side, pool: Pool, q: seq<nat>, k: nat, x: nat)
    requires NoTwice(q) && Ordered(side, pool, q) && Ready(side, pool, q, x)
    requires TailPos(side, pool, q, pool[x].price, k)
    ensures NoTwice(InsertAt(q, k, x)) && Ordered(side, pool, InsertAt(q, k, x))
    ensures Prices(pool, InsertAt(q, k, x)) == InsertAt(Prices(pool, q), k, pool[x].price)
  {
    assert Prices(pool, InsertAt(q, k, x)) == InsertAt(Prices(pool, q), k, pool[x].price);
  }

  /** `Limit::append`: the node joins the tail of its level, opening the level if need be. */
  lemma AppendKeepsSide(side: Side, pool: Pool, q: seq<nat>, levels: Levels, k: nat, x: nat)
    requires Ready(side, pool, q, x) && SideOk(side, pool, q, levels, pool[x].price)
    requires TailPos(side, pool, q, pool[x].price, k) && pool[x].price in levels
    ensures -1 <= levels[pool[x].price].tail < |pool|
    ensures var p := pool[x].price;
      SideOk(side, AppendedPool(pool, levels[p], x), InsertAt(q, k, x),
             levels[p := AppendedLevel(levels[p], x, pool[x].qty)], NIL)
  {
    var p := pool[x].price;
    var ps, q' := Prices(pool, q), InsertAt(q, k, x);
    assert EndsOk(ps, q, p, levels[p]);
    AppendedChain(side, pool, q, k, x, levels[p]);
    AppendedFrame(pool, q, x, levels[p]);
    AppendOrdered(side, pool, q, k, x);
    var pool' := AppendedPool(pool, levels[p], x);
    AppendLevels(side, ps, q, levels, k, p, x, pool[x].qty);
    AppendVolumes(pool, q, levels, k, x);
    VolumesFrame(pool, pool', q', levels[p := AppendedLevel(levels[p], x, pool[x].qty)]);
    assert Prices(pool', q') == Prices(pool, q');
  }

  /** A level that was just created is empty. */
  lemma OpenLevel(side: Side, pool: Pool, q: seq<nat>, levels: Levels, p: nat)
    requires SideOk(side, pool, q, levels, NIL) && p !in levels
    ensures SideOk(side, pool, q, levels[p := PriceLevel(p, 0, NIL, NIL)], p)
  {
    var levels', ps := levels[p := PriceLevel(p, 0, NIL, NIL)], Prices(pool, q);
    VolumeZero(pool, q, p);
    assert VolumesOk(pool, q, levels');
    OpenEnds(ps, q, levels, p);
    assert LevelsOk(ps, q, levels', p);
  }

  lemma OpenEnds(ps: seq<nat>, q: seq<nat>, levels: Levels, p: nat)
    requires |ps| == |q| && LevelsOk(ps, q, levels, NIL) && p !in levels
    ensures LevelsOk(ps, q, levels[p := PriceLevel(p, 0, NIL, NIL)], p)
  {
    var levels' := levels[p := PriceLevel(p, 0, NIL, NIL)];
    FirstIs(ps, p, |ps|);
    EndIs(ps, p, 0);
    forall r | r in levels' ensures EndsOk(ps, q, r, levels'[r]) { if r != p { assert EndsOk(ps, q, r, levels[r]); } }
  }

  lemma {:induction false} VolumeZero(pool: Pool, q: seq<nat>, p: nat)
    requires InPool(pool, q) && forall i :: 0 <= i < |q| ==> pool[q[i]].price != p
    ensures Volume(pool, q, p) == 0
  {
    if q != [] { VolumeZero(pool, q[1..], p); }
  }
}
