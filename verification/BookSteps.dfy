/** The whole book as one image of memory: pool, free list, id index and both sides, and what each
    update of the matching engine does to it. */
module BookSteps {
  import opened Collections
  import opened PriceTimeBook
  import opened PriceTimeLaws
  import opened BookRep

  /** `queues` and `free` name the nodes in list order; `hole` is the price of a level that may be
      empty on each side, or NIL. */
  datatype Image = Image(pool: Pool, freeHead: int, index: map<nat, nat>, levels: Sides<Levels>,
                         queues: Sides<seq<nat>>, free: seq<nat>, hole: Sides<int>)

  const CLOSED: Sides<int> := Sides(NIL, NIL)

  /** Free list and resting orders partition the pool. */
  ghost predicate Partition(n: nat, qs: Sides<seq<nat>>, free: seq<nat>) {
    && NoTwice(qs.buy) && NoTwice(qs.sell) && NoTwice(free)
    && (forall x :: x in qs.buy ==> x < n && x !in qs.sell && x !in free)
    && (forall x :: x in qs.sell ==> x < n && x !in qs.buy && x !in free)
    && (forall x :: x in free ==> x < n && x !in qs.buy && x !in qs.sell)
    && |qs.buy| + |qs.sell| + |free| == n
  }

  ghost predicate RestsIn(qs: Sides<seq<nat>>, x: nat) { x in qs.buy || x in qs.sell }

  /** The index maps exactly the resting ids to their nodes. */
  ghost predicate Indexed(pool: Pool, qs: Sides<seq<nat>>, index: map<nat, nat>) {
    && (forall x: nat :: RestsIn(qs, x) && x < |pool| ==> pool[x].id in index && index[pool[x].id] == x)
    && (forall id :: id in index ==> RestsIn(qs, index[id]) && index[id] < |pool| && pool[index[id]].id == id)
  }

  ghost predicate Consistent(m: Image) {
    && Partition(|m.pool|, m.queues, m.free)
    && FreeList(m.pool, m.freeHead, m.free)
    && SideOk(Buy, m.pool, m.queues.buy, m.levels.buy, m.hole.buy)
    && SideOk(Sell, m.pool, m.queues.sell, m.levels.sell, m.hole.sell)
    && Indexed(m.pool, m.queues, m.index)
  }

  type Sound = m: Image | Consistent(m)
    ghost witness Image([], NIL, map[], Sides(map[], map[]), Sides([], []), [], CLOSED)

  ghost function View(pool: Pool, q: seq<nat>): (v: Queue)
    requires InPool(pool, q)
    ensures |v| == |q|
    ensures forall i {:trigger v[i]} :: 0 <= i < |q| ==>
      v[i] == Resting(pool[q[i]].id, pool[q[i]].price, pool[q[i]].qty)
  {
    seq(|q|, i requires 0 <= i < |q| => Resting(pool[q[i]].id, pool[q[i]].price, pool[q[i]].qty))
  }

  ghost predicate Bounded(m: Image) {
    InPool(m.pool, m.queues.buy) && InPool(m.pool, m.queues.sell)
  }

  /** The abstract book. */
  ghost function BookOf(m: Image): Book
    requires Bounded(m)
  {
    Sides(View(m.pool, m.queues.buy), View(m.pool, m.queues.sell))
  }

  lemma SameView(pool: Pool, pool': Pool, q: seq<nat>)
    requires InPool(pool, q) && InPool(pool', q)
    requires forall i :: 0 <= i < |q| ==> pool'[q[i]].id == pool[q[i]].id && SameTerms(pool'[q[i]], pool[q[i]])
    ensures View(pool', q) == View(pool, q)
  {
    assert View(pool', q) == View(pool, q);
  }

  lemma FillView(pool: Pool, q: seq<nat>, k: nat, d: nat)
    requires InPool(pool, q) && NoTwice(q) && k < |q| && d <= pool[q[k]].qty
    ensures var v := View(pool, q);
      InPool(Filled(pool, q[k], d), q) && View(Filled(pool, q[k], d), q) == v[k := v[k].(qty := v[k].qty - d)]
  {
    var v := View(pool, q);
    assert View(Filled(pool, q[k], d), q) == v[k := v[k].(qty := v[k].qty - d)];
  }

  lemma RemoveView(pool: Pool, q: seq<nat>, k: nat)
    requires InPool(pool, q) && k < |q|
    ensures InPool(pool, RemoveAt(q, k)) && View(pool, RemoveAt(q, k)) == RemoveAt(View(pool, q), k)
  {
    assert View(pool, RemoveAt(q, k)) == RemoveAt(View(pool, q), k);
  }

  lemma InsertView(pool: Pool, q: seq<nat>, k: nat, x: nat)
    requires InPool(pool, q) && k <= |q| && x < |pool|
    ensures InPool(pool, InsertAt(q, k, x))
    ensures View(pool, InsertAt(q, k, x)) == InsertAt(View(pool, q), k, Resting(pool[x].id, pool[x].price, pool[x].qty))
  {
    assert View(pool, InsertAt(q, k, x)) == InsertAt(View(pool, q), k, Resting(pool[x].id, pool[x].price, pool[x].qty));
  }

  lemma SideIsOk(m: Sound, side: Side)
    ensures SideOk(side, m.pool, m.queues.At(side), m.levels.At(side), m.hole.At(side))
  {}

  lemma NodeFacts(m: Sound, side: Side, k: nat)
    requires k < |m.queues.At(side)|
    ensures var x := m.queues.At(side)[k];
      x < |m.pool| && x in m.queues.At(side) && x !in m.queues.At(side.Opposite()) && x !in m.free
  {}

  /** Every node is in exactly one of the three lists. */
  lemma PoolIsPartitioned(m: Sound, x: nat)
    requires x < |m.pool|
    ensures x in m.free <==> !(x in m.queues.buy || x in m.queues.sell)
    ensures x in m.queues.buy ==> x !in m.queues.sell
  {
    if x !in m.free && x !in m.queues.buy && x !in m.queues.sell {
      AllDistinct(m.queues.buy, m.queues.sell, m.free);
      TooMany(m.queues.buy + m.queues.sell + m.free, |m.pool|, x);
      assert false;
    }
  }

  lemma AllDistinct(a: seq<nat>, b: seq<nat>, c: seq<nat>)
    requires NoTwice(a) && NoTwice(b) && NoTwice(c)
    requires forall x :: x in a ==> x !in b && x !in c
    requires forall x :: x in b ==> x !in c
    ensures NoTwice(a + b + c)
  {
    var all := a + b + c;
    forall i, j | 0 <= i < j < |all| ensures all[i] != all[j] {
      var x, y := all[i], all[j];
      assert if i < |a| then x == a[i] && x in a
             else if i < |a| + |b| then x == b[i-|a|] && x in b else x == c[i-|a|-|b|];
      assert if j < |a| then y == a[j]
             else if j < |a| + |b| then y == b[j-|a|] && y in b else y == c[j-|a|-|b|] && y in c;
    }
  }

  // ------------------------------------------------------ updates of the image

  /** Nodes outside the queue of `side` are untouched: the other side and the free list stand. */
  lemma Elsewhere(m: Sound, side: Side, pool': Pool)
    requires |pool'| == |m.pool|
    requires forall y :: 0 <= y < |m.pool| && y !in m.queues.At(side) ==> pool'[y] == m.pool[y]
    ensures var opp := side.Opposite(); SideOk(opp, pool', m.queues.At(opp), m.levels.At(opp), m.hole.At(opp))
    ensures FreeList(pool', m.freeHead, m.free)
  {
    var opp := side.Opposite();
    SideIsOk(m, opp);
    assert forall i :: 0 <= i < |m.free| ==> m.free[i] in m.free;
    SideFrame(opp, m.pool, pool', m.queues.At(opp), m.levels.At(opp), m.hole.At(opp));
    FreeFrame(m.pool, pool', m.freeHead, m.free);
  }

  lemma SameIndexed(pool: Pool, pool': Pool, qs: Sides<seq<nat>>, index: map<nat, nat>)
    requires Indexed(pool, qs, index) && |pool'| == |pool|
    requires forall y :: 0 <= y < |pool| ==> pool'[y].id == pool[y].id
    ensures Indexed(pool', qs, index)
  {}

  /** Lower the quantity of a resting node and the volume of its level. */
  lemma {:induction false} FillStep(m: Sound, side: Side, k: nat, d: nat) returns (m': Sound)
    requires k < |m.queues.At(side)| && d <= m.pool[m.queues.At(side)[k]].qty
    ensures m.pool[m.queues.At(side)[k]].price in m.levels.At(side)
    ensures var x := m.queues.At(side)[k];
      m' == m.(pool := Filled(m.pool, x, d),
               levels := m.levels.Set(side, Shrunk(m.levels.At(side), m.pool[x].price, d)))
  {
    hide SideOk, FreeList, Partition, Indexed;
    var q := m.queues.At(side);
    SideIsOk(m, side);
    NodeFacts(m, side, k);
    FillKeepsSide(side, m.pool, q, m.levels.At(side), m.hole.At(side), k, d);
    var pool' := Filled(m.pool, q[k], d);
    Elsewhere(m, side, pool');
    SameIndexed(m.pool, pool', m.queues, m.index);
    m' := m.(pool := pool', levels := m.levels.Set(side, Shrunk(m.levels.At(side), m.pool[q[k]].price, d)));
  }

  function Dropped(pool: Pool, x: nat, freeHead: int): Pool
    requires LinkInRange(pool, x)
  {
    var p1 := Unlinked(pool, x);
    p1[x := p1[x].(next := freeHead)]
  }

  /** A dropped node's neighbours bypass it; ids, prices and quantities stay. */
  lemma DroppedFrame(pool: Pool, q: seq<nat>, k: nat, freeHead: int)
    requires Chained(pool, q) && NoTwice(q) && k < |q|
    ensures LinkInRange(pool, q[k]) && pool[q[k]].prev != q[k] && pool[q[k]].next != q[k]
    ensures var p2 := Dropped(pool, q[k], freeHead);
      && |p2| == |pool|
      && (forall y :: 0 <= y < |pool| ==> p2[y].id == pool[y].id && SameTerms(p2[y], pool[y]))
      && (forall y :: 0 <= y < |pool| && y != q[k] ==> p2[y] == Unlinked(pool, q[k])[y])
  {
    UnlinkedFrame(pool, q, k);
    assert Linked(pool, q, k);
  }

  lemma RemoveMembers(q: seq<nat>, k: nat)
    requires NoTwice(q) && k < |q|
    ensures NoTwice(RemoveAt(q, k))
    ensures forall x :: x in RemoveAt(q, k) <==> x in q && x != q[k]
  {
    var r := RemoveAt(q, k);
    forall x | x in q && x != q[k] ensures x in r {
      var i :| 0 <= i < |q| && q[i] == x;
      assert r[if i < k then i else i - 1] == x;
    }
  }

  lemma DropPartition(n: nat, side: Side, qs: Sides<seq<nat>>, free: seq<nat>, k: nat)
    requires Partition(n, qs, free) && k < |qs.At(side)|
    ensures var q := qs.At(side); Partition(n, qs.Set(side, RemoveAt(q, k)), [q[k]] + free)
  {
    var q := qs.At(side);
    RemoveMembers(q, k);
    assert forall x :: x in [q[k]] + free <==> x == q[k] || x in free;
    assert q[k] in q;
    assert forall j :: 0 <= j < |free| ==> free[j] in free;
    assert NoTwice([q[k]] + free);
  }

  lemma DropIndexed(pool: Pool, pool': Pool, side: Side, qs: Sides<seq<nat>>, index: map<nat, nat>, k: nat, id: nat)
    requires Indexed(pool, qs, index) && |pool'| == |pool| && k < |qs.At(side)| && NoTwice(qs.At(side))
    requires qs.At(side)[k] !in qs.At(side.Opposite()) && qs.At(side)[k] < |pool|
    requires forall y :: 0 <= y < |pool| ==> pool'[y].id == pool[y].id
    requires id == pool[qs.At(side)[k]].id
    ensures Indexed(pool', qs.Set(side, RemoveAt(qs.At(side), k)), index - {id})
  {
    var q := qs.At(side);
    var qs' := qs.Set(side, RemoveAt(q, k));
    RemoveMembers(q, k);
    assert forall x: nat :: RestsIn(qs', x) <==> RestsIn(qs, x) && x != q[k];
  }

  lemma {:induction false} DropMine(side: Side, pool: Pool, q: seq<nat>, lv: Levels, hole: int, k: nat, freeHead: int)
    requires SideOk(side, pool, q, lv, hole) && k < |q| && (hole == NIL || hole == pool[q[k]].price)
    ensures LinkInRange(pool, q[k]) && pool[q[k]].price in lv
    ensures var x := q[k]; var p := pool[x].price;
      SideOk(side, Dropped(pool, x, freeHead), RemoveAt(q, k), lv[p := RemovedLevel(lv[p], pool[x], x)], p)
  {
    hide LevelsOk, VolumesOk, Ordered;
    DroppedFrame(pool, q, k, freeHead);
    hide SideOk, Unlinked, Dropped, Chained, NoTwice;
    RemoveKeepsSide(side, pool, q, lv, hole, k, Dropped(pool, q[k], freeHead));
  }

  lemma DropOthers(m: Sound, side: Side, k: nat)
    requires k < |m.queues.At(side)|
    ensures LinkInRange(m.pool, m.queues.At(side)[k])
    ensures var x := m.queues.At(side)[k]; var p2 := Dropped(m.pool, x, m.freeHead); var opp := side.Opposite();
      && FreeList(p2, x, [x] + m.free)
      && SideOk(opp, p2, m.queues.At(opp), m.levels.At(opp), m.hole.At(opp))
  {
    var q, opp := m.queues.At(side), side.Opposite();
    var x := q[k];
    SideIsOk(m, side);
    UnlinkedFrame(m.pool, q, k);
    var p1 := Unlinked(m.pool, x);
    assert x in q;
    Elsewhere(m, side, p1);
    FreePush(p1, m.freeHead, m.free, x);
    Elsewhere(m, side, Dropped(m.pool, x, m.freeHead));
  }

  /** A node leaves its level and returns to the free list; its level may be left empty. */
  lemma {:induction false} DropStep(m: Sound, side: Side, k: nat) returns (m': Sound)
    requires k < |m.queues.At(side)|
    requires m.hole.At(side) == NIL || m.hole.At(side) == m.pool[m.queues.At(side)[k]].price
    ensures LinkInRange(m.pool, m.queues.At(side)[k])
    ensures m.pool[m.queues.At(side)[k]].price in m.levels.At(side)
    ensures var q := m.queues.At(side); var x := q[k]; var p := m.pool[x].price; var lv := m.levels.At(side);
      m' == Image(Dropped(m.pool, x, m.freeHead), x, m.index - {m.pool[x].id},
                  m.levels.Set(side, lv[p := RemovedLevel(lv[p], m.pool[x], x)]),
                  m.queues.Set(side, RemoveAt(q, k)), [x] + m.free, m.hole.Set(side, p))
    ensures |m'.pool| == |m.pool|
    ensures forall y :: 0 <= y < |m.pool| ==> m'.pool[y].id == m.pool[y].id && SameTerms(m'.pool[y], m.pool[y])
    ensures var x := m.queues.At(side)[k]; m.pool[x].prev != x && m.pool[x].next != x
  {
    hide SideOk, FreeList, Partition, Indexed;
    var q, lv := m.queues.At(side), m.levels.At(side);
    NodeFacts(m, side, k);
    var x := q[k];
    var p := m.pool[x].price;
    SideIsOk(m, side);
    DropOthers(m, side, k);
    DropMine(side, m.pool, q, lv, m.hole.At(side), k, m.freeHead);
    DropPartition(|m.pool|, side, m.queues, m.free, k);
    DropIds(m, side, k);
    m' := Image(Dropped(m.pool, x, m.freeHead), x, m.index - {m.pool[x].id},
                m.levels.Set(side, lv[p := RemovedLevel(lv[p], m.pool[x], x)]),
                m.queues.Set(side, RemoveAt(q, k)), [x] + m.free, m.hole.Set(side, p));
  }

  lemma {:induction false} DropIds(m: Sound, side: Side, k: nat)
    requires k < |m.queues.At(side)|
    ensures var x := m.queues.At(side)[k];
      && LinkInRange(m.pool, x) && m.pool[x].prev != x && m.pool[x].next != x
      && |Dropped(m.pool, x, m.freeHead)| == |m.pool|
      && (forall y :: 0 <= y < |m.pool| ==> var o := Dropped(m.pool, x, m.freeHead)[y];
            o.id == m.pool[y].id && SameTerms(o, m.pool[y]))
      && Indexed(Dropped(m.pool, x, m.freeHead), m.queues.Set(side, RemoveAt(m.queues.At(side), k)),
                 m.index - {m.pool[x].id})
  {
    hide FreeList, Partition, Indexed, LevelsOk, VolumesOk, Ordered;
    var q := m.queues.At(side);
    SideIsOk(m, side);
    NodeFacts(m, side, k);
    DroppedFrame(m.pool, q, k, m.freeHead);
    hide Unlinked, Dropped, Chained;
    var p2 := Dropped(m.pool, q[k], m.freeHead);
    DropIndexed(m.pool, p2, side, m.queues, m.index, k, m.pool[q[k]].id);
  }

  /** Erase the level of the hole if it is empty. */
  lemma CloseStep(m: Sound, side: Side, p: nat) returns (m': Sound)
    requires m.hole == CLOSED.Set(side, p) && p in m.levels.At(side)
    ensures var lv := m.levels.At(side);
      m' == m.(levels := if lv[p].head == NIL then m.levels.Set(side, lv - {p}) else m.levels, hole := CLOSED)
  {
    var lv := m.levels.At(side);
    SideIsOk(m, side);
    CloseHole(side, m.pool, m.queues.At(side), lv, p);
    m' := m.(levels := if lv[p].head == NIL then m.levels.Set(side, lv - {p}) else m.levels, hole := CLOSED);
  }

  /** Start working on a level: from here on it may become empty. */
  lemma OpenStep(m: Sound, side: Side, p: nat) returns (m': Sound)
    requires m.hole == CLOSED
    ensures m' == m.(hole := CLOSED.Set(side, p))
  {
    m' := m.(hole := CLOSED.Set(side, p));
  }

  ghost function Opened(lv: Levels, p: nat): Levels {
    if p in lv then lv else lv[p := PriceLevel(p, 0, NIL, NIL)]
  }

  lemma InsertMembers(q: seq<nat>, k: nat, y: nat)
    requires NoTwice(q) && k <= |q| && y !in q
    ensures NoTwice(InsertAt(q, k, y))
    ensures forall x :: x in InsertAt(q, k, y) <==> x in q || x == y
  {
    var r := InsertAt(q, k, y);
    assert r[k] == y;
    forall x | x in q ensures x in r {
      var i :| 0 <= i < |q| && q[i] == x;
      assert r[if i < k then i else i + 1] == x;
    }
  }

  lemma TakePartition(n: nat, side: Side, qs: Sides<seq<nat>>, free: seq<nat>, k: nat)
    requires Partition(n, qs, free) && k <= |qs.At(side)| && free != []
    ensures Partition(n, qs.Set(side, InsertAt(qs.At(side), k, free[0])), free[1..])
  {
    InsertMembers(qs.At(side), k, free[0]);
    assert forall x :: x in free[1..] ==> x in free && x != free[0];
  }

  lemma TakeIndexed(pool: Pool, pool': Pool, side: Side, qs: Sides<seq<nat>>, index: map<nat, nat>,
                    k: nat, x: nat, id: nat)
    requires Indexed(pool, qs, index) && |pool'| == |pool| && k <= |qs.At(side)| && NoTwice(qs.At(side))
    requires x < |pool| && !RestsIn(qs, x) && id !in index && pool'[x].id == id
    requires forall y :: 0 <= y < |pool| && y != x ==> pool'[y].id == pool[y].id
    ensures Indexed(pool', qs.Set(side, InsertAt(qs.At(side), k, x)), index[id := x])
  {
    var qs' := qs.Set(side, InsertAt(qs.At(side), k, x));
    InsertMembers(qs.At(side), k, x);
    assert forall y: nat :: RestsIn(qs', y) <==> RestsIn(qs, y) || y == x;
  }

  /** The slot the reference book gives to a new order is the tail of its price level. */
  lemma QueuePosIsTail(side: Side, pool: Pool, q: seq<nat>, p: nat)
    requires Ordered(side, pool, q)
    ensures TailPos(side, pool, q, p, QueuePos(side, View(pool, q), p))
  {
    var v, ps := View(pool, q), Prices(pool, q);
    var k := QueuePos(side, v, p);
    assert forall i :: 0 <= i < |q| ==> ps[i] == v[i].price;
    forall i | k <= i < |q| ensures Better(side, p, ps[i]) {
      assert Better(side, p, v[k].price);
      if i > k { assert !Better(side, ps[i], ps[k]); }
    }
  }

  ghost function Rested(pool: Pool, lv: Levels, x: nat, o: Order): Pool
    requires x < |pool| && -1 <= Opened(lv, o.price)[o.price].tail < |pool|
  {
    AppendedPool(pool[x := o], Opened(lv, o.price)[o.price], x)
  }

  /** The side of the residual: opened if need be, then extended at the tail of its level. */
  lemma RestSide(side: Side, pool: Pool, q: seq<nat>, levels: Levels, k: nat, x: nat, o: Order)
    requires SideOk(side, pool, q, levels, NIL) && x < |pool| && x !in q
    requires o.side == side && o.prev == NIL && o.next == NIL && TailPos(side, pool, q, o.price, k)
    ensures var lv := Opened(levels, o.price)[o.price];
      -1 <= lv.tail < |pool| && (lv.head == NIL <==> lv.tail == NIL)
    ensures var lv := Opened(levels, o.price);
      SideOk(side, Rested(pool, levels, x, o), InsertAt(q, k, x),
             lv[o.price := AppendedLevel(lv[o.price], x, o.qty)], NIL)
    ensures var pool' := Rested(pool, levels, x, o);
      |pool'| == |pool|
      && (forall y :: 0 <= y < |pool| ==> SameData(pool'[y], pool[x := o][y]))
      && (forall y :: 0 <= y < |pool| && y !in q && y != x ==> pool'[y] == pool[y])
  {
    var p := o.price;
    var pool1, lv := pool[x := o], Opened(levels, p);
    SideFrame(side, pool, pool1, q, levels, NIL);
    if p !in levels { OpenLevel(side, pool1, q, levels, p); }
    assert SideOk(side, pool1, q, lv, p);
    assert Prices(pool1, q) == Prices(pool, q);
    assert Ready(side, pool1, q, x);
    AppendKeepsSide(side, pool1, q, lv, k, x);
    assert EndsOk(Prices(pool1, q), q, p, lv[p]);
    AppendedChain(side, pool1, q, k, x, lv[p]);
    AppendedFrame(pool1, q, x, lv[p]);
    TailIsBeforePos(side, pool1, q, k, p, lv[p]);
  }

  lemma RestElsewhere(m: Sound, side: Side, pool': Pool, k: nat, id: nat)
    requires m.free != [] && id !in m.index && m.free[0] < |m.pool|
    requires k <= |m.queues.At(side)| && |pool'| == |m.pool| && pool'[m.free[0]].id == id
    requires forall y :: 0 <= y < |m.pool| && y != m.free[0] ==> pool'[y].id == m.pool[y].id
    requires forall y :: 0 <= y < |m.pool| && y !in m.queues.At(side) && y != m.free[0] ==> pool'[y] == m.pool[y]
    ensures var opp := side.Opposite(); SideOk(opp, pool', m.queues.At(opp), m.levels.At(opp), m.hole.At(opp))
    ensures FreeList(pool', m.pool[m.free[0]].next, m.free[1..])
    ensures Partition(|m.pool|, m.queues.Set(side, InsertAt(m.queues.At(side), k, m.free[0])), m.free[1..])
    ensures Indexed(pool', m.queues.Set(side, InsertAt(m.queues.At(side), k, m.free[0])), m.index[id := m.free[0]])
  {
    var opp, free := side.Opposite(), m.free;
    var x := free[0];
    SideIsOk(m, opp);
    assert x in free;
    SideFrame(opp, m.pool, pool', m.queues.At(opp), m.levels.At(opp), m.hole.At(opp));
    FreePop(m.pool, m.freeHead, free);
    assert forall i :: 0 <= i < |free| - 1 ==> free[1..][i] == free[i+1] && free[i+1] in free;
    FreeFrame(m.pool, pool', m.pool[x].next, free[1..]);
    TakePartition(|m.pool|, side, m.queues, free, k);
    TakeIndexed(m.pool, pool', side, m.queues, m.index, k, x, id);
  }

  /** A residual takes the first free node and joins the tail of its level. */
  lemma {:induction false} RestStep(m: Sound, side: Side, o: Order) returns (m': Sound, k: nat)
    requires m.hole == CLOSED && m.free != [] && o.id !in m.index
    requires o.side == side && o.prev == NIL && o.next == NIL
    ensures m.free[0] < |m.pool|
    ensures var lv := Opened(m.levels.At(side), o.price)[o.price];
      -1 <= lv.tail < |m.pool| && (lv.head == NIL <==> lv.tail == NIL)
    ensures k <= |m.queues.At(side)|
    ensures var lv := Opened(m.levels.At(side), o.price); var x := m.free[0];
      m' == Image(Rested(m.pool, m.levels.At(side), x, o), m.pool[x].next, m.index[o.id := x],
                  m.levels.Set(side, lv[o.price := AppendedLevel(lv[o.price], x, o.qty)]),
                  m.queues.Set(side, InsertAt(m.queues.At(side), k, x)), m.free[1..], CLOSED)
    ensures InPool(m.pool, m.queues.At(side)) && k == QueuePos(side, View(m.pool, m.queues.At(side)), o.price)
    ensures forall y :: 0 <= y < |m.pool| ==> SameData(m'.pool[y], m.pool[m.free[0] := o][y])
  {
    hide SideOk, FreeList, Partition, Indexed;
    var q, x := m.queues.At(side), m.free[0];
    SideIsOk(m, side);
    FreeFacts(m);
    TailSlot(m, side, o.price);
    k := QueuePos(side, View(m.pool, q), o.price);
    RestSide(side, m.pool, q, m.levels.At(side), k, x, o);
    var pool' := Rested(m.pool, m.levels.At(side), x, o);
    RestElsewhere(m, side, pool', k, o.id);
    var lv := Opened(m.levels.At(side), o.price);
    m' := Image(pool', m.pool[x].next, m.index[o.id := x],
                m.levels.Set(side, lv[o.price := AppendedLevel(lv[o.price], x, o.qty)]),
                m.queues.Set(side, InsertAt(q, k, x)), m.free[1..], CLOSED);
  }

  lemma FreeFacts(m: Sound)
    requires m.free != []
    ensures var x := m.free[0]; x < |m.pool| && x !in m.queues.buy && x !in m.queues.sell
  {
    assert m.free[0] in m.free;
  }

  lemma TailSlot(m: Sound, side: Side, p: nat)
    ensures var q := m.queues.At(side);
      InPool(m.pool, q) && TailPos(side, m.pool, q, p, QueuePos(side, View(m.pool, q), p))
  {
    SideIsOk(m, side);
    QueuePosIsTail(side, m.pool, m.queues.At(side), p);
  }

  /** The best price with a level is the price at the front of the queue. */
  lemma FrontIsBest(side: Side, pool: Pool, q: seq<nat>, levels: Levels)
    requires SideOk(side, pool, q, levels, NIL) && levels != map[]
    ensures q != [] && pool[q[0]].price in levels
    ensures forall p :: p in levels ==> !Better(side, p, pool[q[0]].price)
  {
    var ps := Prices(pool, q);
    forall p | p in levels ensures q != [] && !Better(side, p, pool[q[0]].price) {
      assert EndsOk(ps, q, p, levels[p]);
      var f := First(ps, p);
      assert ps[f] == p;
      if f > 0 { assert !Better(side, ps[f], ps[0]); }
    }
    assert q != [] by { var p :| p in levels; }
    assert ps[0] in levels;
  }

  lemma Front(m: Sound, side: Side)
    requires m.hole == CLOSED && m.levels.At(side) != map[]
    ensures var q, lv := m.queues.At(side), m.levels.At(side);
      q != [] && q[0] < |m.pool| && m.pool[q[0]].price in lv &&
      forall p :: p in lv ==> !Better(side, p, m.pool[q[0]].price)
  {
    SideIsOk(m, side);
    FrontIsBest(side, m.pool, m.queues.At(side), m.levels.At(side));
  }

  /** The image right after construction: every node is free, in index order. */
  lemma FreshImage(pool: Pool) returns (m: Sound)
    requires |pool| >= 1
    requires forall i :: 0 <= i < |pool| ==> pool[i].next == if i + 1 < |pool| then i + 1 else NIL
    ensures m.pool == pool && m.freeHead == 0 && m.index == map[] && m.levels == Sides(map[], map[])
    ensures m.hole == CLOSED && BookOf(m) == Sides([], []) && m.queues == Sides([], [])
  {
    var free := seq(|pool|, i requires 0 <= i < |pool| => i);
    forall i | 0 <= i < |free| ensures FreeLink(pool, free, i) { assert free[i] == i; }
    m := Image(pool, 0, map[], Sides(map[], map[]), Sides([], []), free, CLOSED);
  }

  /** A fill shows in the abstract book at the filled order only. */
  lemma FillBook(m: Image, m': Image, side: Side, k: nat, d: nat)
    requires Bounded(m) && k < |m.queues.At(side)| && d <= m.pool[m.queues.At(side)[k]].qty
    requires NoTwice(m.queues.At(side)) && m.queues.At(side)[k] !in m.queues.At(side.Opposite())
    requires m'.pool == Filled(m.pool, m.queues.At(side)[k], d) && m'.queues == m.queues
    ensures Bounded(m') && BookOf(m').At(side.Opposite()) == BookOf(m).At(side.Opposite())
    ensures var v := BookOf(m).At(side);
      k < |v| && d <= v[k].qty && BookOf(m').At(side) == v[k := v[k].(qty := v[k].qty - d)]
  {
    FillView(m.pool, m.queues.At(side), k, d);
    SameView(m.pool, m'.pool, m.queues.At(side.Opposite()));
  }

  /** A drop removes one order from the abstract book and touches no other. */
  lemma DropBook(m: Image, m': Image, side: Side, k: nat)
    requires Bounded(m) && k < |m.queues.At(side)| && |m'.pool| == |m.pool|
    requires m'.queues == m.queues.Set(side, RemoveAt(m.queues.At(side), k))
    requires forall y :: 0 <= y < |m.pool| ==> m'.pool[y].id == m.pool[y].id && SameTerms(m'.pool[y], m.pool[y])
    ensures Bounded(m') && BookOf(m').At(side.Opposite()) == BookOf(m).At(side.Opposite())
    ensures BookOf(m').At(side) == RemoveAt(BookOf(m).At(side), k)
  {
    RemoveView(m.pool, m.queues.At(side), k);
    SameView(m.pool, m'.pool, RemoveAt(m.queues.At(side), k));
    SameView(m.pool, m'.pool, m.queues.At(side.Opposite()));
  }

  /** A residual joins the abstract queue of its side. */
  lemma RestBook(m: Image, m': Image, side: Side, k: nat, x: nat, o: Order)
    requires Bounded(m) && k <= |m.queues.At(side)| && |m'.pool| == |m.pool| && x < |m.pool|
    requires x !in m.queues.buy && x !in m.queues.sell
    requires m'.queues == m.queues.Set(side, InsertAt(m.queues.At(side), k, x))
    requires forall y :: 0 <= y < |m.pool| ==> SameData(m'.pool[y], m.pool[x := o][y])
    ensures Bounded(m') && BookOf(m').At(side.Opposite()) == BookOf(m).At(side.Opposite())
    ensures BookOf(m').At(side) == InsertAt(BookOf(m).At(side), k, Resting(o.id, o.price, o.qty))
  {
    var q, opp, p1 := m.queues.At(side), m.queues.At(side.Opposite()), m.pool[x := o];
    SameView(m.pool, p1, q);
    SameView(m.pool, p1, opp);
    InsertView(p1, q, k, x);
    SameView(p1, m'.pool, InsertAt(q, k, x));
    SameView(p1, m'.pool, opp);
  }

  /** The residual takes its reference place in the abstract book. */
  lemma {:induction false} RestShows(m: Sound, m': Sound, side: Side, k: nat, x: nat, o: Order)
    requires k <= |m.queues.At(side)| && |m'.pool| == |m.pool| && x < |m.pool|
    requires x !in m.queues.buy && x !in m.queues.sell
    requires m'.queues == m.queues.Set(side, InsertAt(m.queues.At(side), k, x))
    requires InPool(m.pool, m.queues.At(side)) && k == QueuePos(side, View(m.pool, m.queues.At(side)), o.price)
    requires forall y :: 0 <= y < |m.pool| ==> SameData(m'.pool[y], m.pool[x := o][y])
    ensures Bounded(m) && Bounded(m')
    ensures BookOf(m') == BookOf(m).Set(side, Enqueue(side, BookOf(m).At(side), Resting(o.id, o.price, o.qty)))
  {
    SoundIsBounded(m);
    hide Consistent, QueuePos;
    RestBook(m, m', side, k, x, o);
    assert BookOf(m).At(side) == View(m.pool, m.queues.At(side));
  }

  lemma {:induction false} BookSizes(m: Sound)
    ensures Bounded(m) && |BookOf(m).buy| == |m.queues.buy| && |BookOf(m).sell| == |m.queues.sell|
  {
    SoundIsBounded(m);
    hide Consistent;
  }

  lemma SoundIsBounded(m: Sound)
    ensures Bounded(m) && NoTwice(m.queues.buy) && NoTwice(m.queues.sell)
    ensures forall x :: x in m.queues.buy ==> x !in m.queues.sell
    ensures |m.queues.buy| + |m.queues.sell| + |m.free| == |m.pool|
    ensures m.freeHead == if m.free == [] then NIL else m.free[0]
    ensures forall i :: 0 <= i < |m.free| ==> m.free[i] < |m.pool|
  {}

  ghost predicate PositiveExcept(m: Image, x: int) {
    && (forall y :: y in m.queues.buy && y < |m.pool| && y != x ==> m.pool[y].qty > 0)
    && (forall y :: y in m.queues.sell && y < |m.pool| && y != x ==> m.pool[y].qty > 0)
  }

  lemma DropPositive(m: Image, m': Image, side: Side, k: nat)
    requires k < |m.queues.At(side)| && PositiveExcept(m, m.queues.At(side)[k]) && |m'.pool| == |m.pool|
    requires NoTwice(m.queues.At(side)) && m.queues.At(side)[k] !in m.queues.At(side.Opposite())
    requires m'.queues == m.queues.Set(side, RemoveAt(m.queues.At(side), k))
    requires forall y :: 0 <= y < |m.pool| ==> SameTerms(m'.pool[y], m.pool[y])
    ensures PositiveExcept(m', NIL)
  {
    RemoveMembers(m.queues.At(side), k);
  }

  /** While the front of the queue is no better than the level at `best`, the head of that level is
      the front of the queue. */
  lemma HeadIsFront(m: Sound, side: Side, best: nat)
    requires best in m.levels.At(side) && m.levels.At(side)[best].head != NIL
    requires var q := m.queues.At(side); q != [] && q[0] < |m.pool| ==> !Better(side, m.pool[q[0]].price, best)
    ensures var q := m.queues.At(side);
      && q != [] && q[0] < |m.pool| && q[0] == m.levels.At(side)[best].head && m.pool[q[0]].price == best
      && (|q| > 1 ==> q[1] < |m.pool| && !Better(side, m.pool[q[1]].price, best))
  {
    SideIsOk(m, side);
    var q, ps := m.queues.At(side), Prices(m.pool, m.queues.At(side));
    assert EndsOk(ps, q, best, m.levels.At(side)[best]);
    var f := First(ps, best);
    if f > 0 { assert !Better(side, ps[f], ps[0]); }
    FirstSkips(ps, best);
    if |q| > 1 { assert !Better(side, ps[1], ps[0]); }
  }

  lemma HeadIsNode(m: Sound, side: Side, best: nat)
    requires best in m.levels.At(side)
    ensures m.levels.At(side)[best].head == NIL || m.levels.At(side)[best].head >= 0
  {
    SideIsOk(m, side);
    assert EndsOk(Prices(m.pool, m.queues.At(side)), m.queues.At(side), best, m.levels.At(side)[best]);
  }

  lemma FrontPrice(m: Sound, side: Side) returns (p: nat)
    ensures m.queues.At(side) != [] ==> p in m.levels.At(side)
  {
    SideIsOk(m, side);
    var ps := Prices(m.pool, m.queues.At(side));
    p := if ps == [] then 0 else ps[0];
  }

  lemma NoLevels(m: Sound, side: Side)
    requires m.levels.At(side) == map[]
    ensures m.queues.At(side) == []
  {
    var p := FrontPrice(m, side);
  }

  lemma LevelHasHead(m: Sound, side: Side, p: nat)
    requires m.hole == CLOSED && p in m.levels.At(side)
    ensures m.levels.At(side)[p].head != NIL
  {
    SideIsOk(m, side);
  }

  /** The index knows an id exactly when the abstract book holds it. */
  lemma IndexIsBook(m: Sound, id: nat)
    ensures Bounded(m) && (id in m.index <==> Rests(BookOf(m), id))
  {
    var b := BookOf(m);
    if id in m.index {
      var x := m.index[id];
      assert RestsIn(m.queues, x);
      if x in m.queues.buy {
        var i :| 0 <= i < |m.queues.buy| && m.queues.buy[i] == x;
        assert b.buy[i].id == id;
      } else {
        var i :| 0 <= i < |m.queues.sell| && m.queues.sell[i] == x;
        assert b.sell[i].id == id;
      }
    }
    if Rests(b, id) {
      if i :| 0 <= i < |b.buy| && b.buy[i].id == id {
        assert RestsIn(m.queues, m.queues.buy[i]);
      } else {
        var i :| 0 <= i < |b.sell| && b.sell[i].id == id;
        assert RestsIn(m.queues, m.queues.sell[i]);
      }
    }
  }

  /** A resting node is the node of its id in the index. */
  lemma NodeIsIndexed(m: Sound, side: Side, k: nat)
    requires k < |m.queues.At(side)|
    ensures var x := m.queues.At(side)[k]; x < |m.pool| && m.pool[x].id in m.index && m.index[m.pool[x].id] == x
  {
    NodeFacts(m, side, k);
    assert RestsIn(m.queues, m.queues.At(side)[k]);
  }

  /** Different places of the queues hold different nodes. */
  lemma NodesDiffer(m: Sound, side: Side, k: nat, side': Side, i: nat)
    requires k < |m.queues.At(side)| && i < |m.queues.At(side')| && (side == side' ==> i != k)
    ensures m.queues.At(side)[k] != m.queues.At(side')[i]
  {
    NodeFacts(m, side, k);
    NodeFacts(m, side', i);
  }

  /** Different resting nodes have different ids. */
  lemma {:induction false} IdsDiffer(m: Sound, side: Side, k: nat, side': Side, i: nat)
    requires k < |m.queues.At(side)| && i < |m.queues.At(side')| && (side == side' ==> i != k)
    ensures m.queues.At(side)[k] < |m.pool| && m.queues.At(side')[i] < |m.pool|
    ensures m.pool[m.queues.At(side)[k]].id != m.pool[m.queues.At(side')[i]].id
  {
    hide Consistent;
    NodeIsIndexed(m, side, k);
    NodeIsIndexed(m, side', i);
    NodesDiffer(m, side, k, side', i);
  }

  /** Each side of the abstract book is sorted, without empty orders and with distinct ids. */
  lemma {:induction false} BookIsClean(m: Sound, side: Side)
    requires PositiveExcept(m, NIL)
    ensures Bounded(m) && Clean(side, BookOf(m).At(side))
  {
    SoundIsBounded(m);
    SideIsOk(m, side);
    hide Consistent, Better;
    var q, v := m.queues.At(side), BookOf(m).At(side);
    forall i | 0 <= i < |v| ensures v[i].qty > 0 { assert q[i] in q; }
    forall i, j | 0 <= i < j < |v| ensures !Better(side, v[j].price, v[i].price) && v[i].id != v[j].id {
      IdsDiffer(m, side, i, side, j);
      assert Prices(m.pool, q)[i] == v[i].price && Prices(m.pool, q)[j] == v[j].price;
    }
  }

  /** Cancelling the order of node `x` removes exactly the entry of its id. */
  lemma {:induction false} CancelIsRemove(m: Sound, side: Side, k: nat)
    requires k < |m.queues.At(side)|
    ensures Bounded(m)
    ensures var b := BookOf(m); var id := m.pool[m.queues.At(side)[k]].id;
      && Without(b.At(side), id) == RemoveAt(b.At(side), k)
      && Without(b.At(side.Opposite()), id) == b.At(side.Opposite())
  {
    hide Consistent;
    SoundIsBounded(m);
    var q, opp := m.queues.At(side), m.queues.At(side.Opposite());
    var b, id := BookOf(m), m.pool[q[k]].id;
    forall i | 0 <= i < |q| && i != k ensures b.At(side)[i].id != id { IdsDiffer(m, side, k, side, i); }
    forall i | 0 <= i < |opp| ensures b.At(side.Opposite())[i].id != id {
      IdsDiffer(m, side, k, side.Opposite(), i);
    }
    WithoutOne(b.At(side), k);
    WithoutNone(b.At(side.Opposite()), id);
  }

  lemma {:induction false} CancelWithdraws(m: Sound, id: nat)
    requires PositiveExcept(m, NIL)
    ensures Bounded(m)
    ensures var b, a := BookOf(m), Cancel(BookOf(m), id); Withdrawn(b.buy, a.buy, id) && Withdrawn(b.sell, a.sell, id)
  {
    hide Consistent, Withdrawn, Without;
    BookIsClean(m, Buy);
    BookIsClean(m, Sell);
    WithoutWithdraws(BookOf(m).buy, id);
    WithoutWithdraws(BookOf(m).sell, id);
  }

  lemma NotResting(m: Sound, id: nat)
    requires id !in m.index
    ensures Bounded(m) && Cancel(BookOf(m), id) == BookOf(m)
  {
    IndexIsBook(m, id);
    WithoutNone(BookOf(m).buy, id);
    WithoutNone(BookOf(m).sell, id);
  }

  /** An indexed id names a node of the side recorded in it. */
  lemma Locate(m: Sound, id: nat) returns (k: nat)
    requires id in m.index
    ensures m.index[id] < |m.pool| && m.pool[m.index[id]].id == id
    ensures var side := m.pool[m.index[id]].side;
      k < |m.queues.At(side)| && m.queues.At(side)[k] == m.index[id] && m.pool[m.index[id]].price in m.levels.At(side)
  {
    var x := m.index[id];
    assert RestsIn(m.queues, x);
    var side := if x in m.queues.buy then Buy else Sell;
    SideIsOk(m, side);
    k :| 0 <= k < |m.queues.At(side)| && m.queues.At(side)[k] == x;
    assert Prices(m.pool, m.queues.At(side))[k] in m.levels.At(side);
  }

  lemma RestPositive(m: Image, m': Image, side: Side, k: nat, x: nat, o: Order)
    requires PositiveExcept(m, NIL) && k <= |m.queues.At(side)| && |m'.pool| == |m.pool| && x < |m.pool| && o.qty > 0
    requires x !in m.queues.At(side) && NoTwice(m.queues.At(side))
    requires m'.queues == m.queues.Set(side, InsertAt(m.queues.At(side), k, x))
    requires forall y :: 0 <= y < |m.pool| ==> SameData(m'.pool[y], m.pool[x := o][y])
    ensures PositiveExcept(m', NIL)
  {
    InsertMembers(m.queues.At(side), k, x);
  }

  /** All that booking a residual does to the image and to the abstract book. */
  lemma {:induction false} RestAll(m: Sound, side: Side, o: Order) returns (m': Sound)
    requires m.hole == CLOSED && PositiveExcept(m, NIL) && m.free != [] && o.id !in m.index
    requires o.side == side && o.prev == NIL && o.next == NIL && o.qty > 0
    ensures m.free[0] < |m.pool|
    ensures var lv := Opened(m.levels.At(side), o.price)[o.price];
      -1 <= lv.tail < |m.pool| && (lv.head == NIL <==> lv.tail == NIL)
    ensures var lv := Opened(m.levels.At(side), o.price); var x := m.free[0];
      && m'.pool == Rested(m.pool, m.levels.At(side), x, o) && m'.freeHead == m.pool[x].next
      && m'.index == m.index[o.id := x]
      && m'.levels == m.levels.Set(side, lv[o.price := AppendedLevel(lv[o.price], x, o.qty)])
    ensures m'.hole == CLOSED && PositiveExcept(m', NIL) && Bounded(m) && Bounded(m')
    ensures BookOf(m') == BookOf(m).Set(side, Enqueue(side, BookOf(m).At(side), Resting(o.id, o.price, o.qty)))
  {
    SoundIsBounded(m);
    hide Consistent, PositiveExcept, BookOf, Enqueue, QueuePos;
    FreeFacts(m);
    var k;
    m', k := RestStep(m, side, o);
    RestShows(m, m', side, k, m.free[0], o);
    RestPositive(m, m', side, k, m.free[0], o);
  }

  /** The order at the head of the best level is the front of the abstract queue. */
  lemma {:induction false} HeadServes(m: Sound, side: Side, best: nat)
    requires PositiveExcept(m, NIL) && best in m.levels.At(side) && m.levels.At(side)[best].head != NIL
    requires Bounded(m) && var v := BookOf(m).At(side); v != [] ==> !Better(side, v[0].price, best)
    ensures var q, v := m.queues.At(side), BookOf(m).At(side);
      && q != [] && v != [] && q[0] == m.levels.At(side)[best].head && q[0] < |m.pool|
      && m.pool[q[0]].price == v[0].price == best && m.pool[q[0]].qty == v[0].qty > 0
      && (|v| > 1 ==> !Better(side, v[1].price, best))
  {
    hide Consistent;
    HeadIsFront(m, side, best);
    assert m.queues.At(side)[0] in m.queues.At(side);
  }
}
