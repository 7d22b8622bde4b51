/** The matching engine: a fixed node pool with an intrusive free list, one doubly linked FIFO per
    price level, two ordered level maps and an index by order id. */
module OrderBookEngine {
  import opened Collections
  import opened PriceTimeBook
  import opened PriceTimeLaws
  import opened BookRep
  import opened BookSteps

  /** The first key in the order of a level map. */
  predicate IsBest(side: Side, lv: Levels, p: nat) {
    p in lv && forall r :: r in lv ==> !Better(side, r, p)
  }

  lemma BestIsUnique(side: Side, lv: Levels, p: nat, r: nat)
    requires IsBest(side, lv, p) && IsBest(side, lv, r)
    ensures p == r
  {}

  class OrderBook {
    const nodes: array<Order>
    var freeHead: int
    var index: map<nat, nat>
    var levels: Sides<Levels>

    // The state above together with its lists in order, always consistent.
    ghost var mem: Sound

    /** Memory is as `mem` says. */
    ghost predicate Mirrors()
      reads this, nodes
    {
      nodes[..] == mem.pool && freeHead == mem.freeHead && index == mem.index && levels == mem.levels
    }

    ghost predicate Valid()
      reads this, nodes
    {
      Mirrors() && mem.hole == CLOSED && PositiveExcept(mem, NIL)
    }

    ghost function Contents(): Book
      reads this
    {
      BookOf(mem)
    }

    constructor (maxOrders: nat)
      requires maxOrders >= 1
      ensures Valid() && Contents() == Sides([], []) && nodes.Length == maxOrders && fresh(nodes)
    {
      nodes := new Order[maxOrders](i => Order(0, 0, 0, Buy, NIL, NIL));
      freeHead := 0;
      index := map[];
      levels := Sides(map[], map[]);
      new;
      for i := 0 to maxOrders - 1
        invariant forall j :: 0 <= j < i ==> nodes[j].next == j + 1
        modifies nodes
      {
        nodes[i] := nodes[i].(next := i + 1);
      }
      nodes[maxOrders-1] := nodes[maxOrders-1].(next := NIL);
      mem := FreshImage(nodes[..]);
    }

    // --------------------------------------------------------- pool and levels

    method Allocate() returns (x: int)
      requires freeHead == NIL || 0 <= freeHead < nodes.Length
      modifies this`freeHead, nodes
      ensures x == old(freeHead)
      ensures x == NIL ==> nodes[..] == old(nodes[..]) && freeHead == NIL
      ensures x != NIL ==>
        && freeHead == old(nodes[freeHead].next)
        && nodes[..] == old(nodes[..])[x := old(nodes[freeHead]).(prev := NIL, next := NIL)]
    {
      if freeHead == NIL { return NIL; }
      x := freeHead;
      freeHead := nodes[freeHead].next;
      nodes[x] := nodes[x].(prev := NIL, next := NIL);
    }

    method Deallocate(x: nat)
      requires x < nodes.Length
      modifies this`freeHead, nodes
      ensures nodes[..] == old(nodes[..])[x := old(nodes[x]).(next := old(freeHead))]
      ensures freeHead == x
    {
      nodes[x] := nodes[x].(next := freeHead);
      freeHead := x;
    }

    /** `Limit::append` on the level of `side` at `price`. */
    method Append(side: Side, price: nat, x: nat)
      requires price in levels.At(side) && x < nodes.Length
      requires -1 <= levels.At(side)[price].tail < nodes.Length
      requires levels.At(side)[price].head == NIL <==> levels.At(side)[price].tail == NIL
      modifies this`levels, nodes
      ensures nodes[..] == AppendedPool(old(nodes[..]), old(levels.At(side)[price]), x)
      ensures levels == old(levels).Set(side,
        old(levels.At(side))[price := AppendedLevel(old(levels.At(side)[price]), x, old(nodes[x].qty))])
    {
      var lv := levels.At(side)[price];
      if lv.head == NIL {
        lv := lv.(head := x, tail := x);
      } else {
        nodes[lv.tail] := nodes[lv.tail].(next := x);
        nodes[x] := nodes[x].(prev := lv.tail);
        lv := lv.(tail := x);
      }
      lv := lv.(totalVolume := Wrap(lv.totalVolume + nodes[x].qty));
      levels := levels.Set(side, levels.At(side)[price := lv]);
    }

    /** `Limit::remove` on the level of `side` at `price`. */
    method Remove(side: Side, price: nat, x: nat)
      requires price in levels.At(side) && LinkInRange(nodes[..], x)
      requires nodes[x].prev != x && nodes[x].next != x
      modifies this`levels, nodes
      ensures nodes[..] == Unlinked(old(nodes[..]), x)
      ensures levels == old(levels).Set(side,
        old(levels.At(side))[price := RemovedLevel(old(levels.At(side)[price]), old(nodes[x]), x)])
    {
      var lv := levels.At(side)[price];
      lv := lv.(totalVolume := Wrap(lv.totalVolume - nodes[x].qty));
      if nodes[x].prev != NIL {
        nodes[nodes[x].prev] := nodes[nodes[x].prev].(next := nodes[x].next);
      }
      if nodes[x].next != NIL {
        nodes[nodes[x].next] := nodes[nodes[x].next].(prev := nodes[x].prev);
      }
      if x == lv.head { lv := lv.(head := nodes[x].next); }
      if x == lv.tail { lv := lv.(tail := nodes[x].prev); }
      levels := levels.Set(side, levels.At(side)[price := lv]);
    }

    method EraseIfEmpty(side: Side, price: nat)
      requires price in levels.At(side)
      modifies this`levels
      ensures levels == if old(levels).At(side)[price].head == NIL
                        then old(levels).Set(side, old(levels).At(side) - {price}) else old(levels)
    {
      if levels.At(side)[price].head == NIL {
        levels := levels.Set(side, levels.At(side) - {price});
      }
    }

    // ------------------------------------------------------------ matching

    /** `begin()` of an ordered level map: the price of the front of the queue. */
    method BestPrice(side: Side) returns (best: nat)
      requires Valid() && levels.At(side) != map[]
      ensures mem.queues.At(side) != [] && best == mem.pool[mem.queues.At(side)[0]].price
      ensures best in levels.At(side)
    {
      hide Consistent;
      Front(mem, side);
      ghost var front := mem.pool[mem.queues.At(side)[0]].price;
      assert IsBest(side, levels.At(side), front);
      best :| best in levels.At(side) && IsBest(side, levels.At(side), best);
      BestIsUnique(side, levels.At(side), best, front);
    }

    /** Take the node `x`, `k`-th of its side, out of its level, out of the index and back to the pool. */
    method Drop(side: Side, price: nat, x: nat, ghost k: nat)
      requires Mirrors() && k < |mem.queues.At(side)| && x == mem.queues.At(side)[k]
      requires x < |mem.pool| && x < nodes.Length && price in levels.At(side) && k < |Contents().At(side)|
      requires mem.pool[x].price == price && PositiveExcept(mem, x)
      requires mem.hole.At(side) == NIL || mem.hole.At(side) == price
      modifies this, nodes
      ensures Mirrors() && PositiveExcept(mem, NIL)
      ensures mem.hole == old(mem.hole).Set(side, price) && index.Keys <= old(index.Keys)
      ensures price in old(levels.At(side)) && price in levels.At(side)
      ensures levels.At(side)[price] == RemovedLevel(old(levels.At(side))[price], old(nodes[x]), x)
      ensures Contents().At(side.Opposite()) == old(Contents().At(side.Opposite()))
      ensures Contents().At(side) == RemoveAt(old(Contents().At(side)), k)
    {
      hide Consistent;
      SoundIsBounded(mem);
      NodeFacts(mem, side, k);
      ghost var m := DropStep(mem, side, k);
      DropBook(mem, m, side, k);
      DropPositive(mem, m, side, k);
      Remove(side, price, x);
      index := index - {nodes[x].id};
      Deallocate(x);
      mem := m;
    }

    /** Trade `d` against the head order `x` of the level at `best`; drop the order if that depletes it. */
    method Execute(side: Side, best: nat, x: nat, d: nat)
      requires Mirrors() && PositiveExcept(mem, NIL) && mem.hole == CLOSED.Set(side, best)
      requires mem.queues.At(side) != [] && x == mem.queues.At(side)[0]
      requires x < |mem.pool| && x < nodes.Length && best in levels.At(side) && Contents().At(side) != []
      requires mem.pool[x].price == best && d <= mem.pool[x].qty
      modifies this, nodes
      ensures Mirrors() && PositiveExcept(mem, NIL) && mem.hole == CLOSED.Set(side, best)
      ensures best in old(levels.At(side)) && best in levels.At(side) && index.Keys <= old(index.Keys)
      ensures d == old(nodes[x].qty) && old(levels.At(side))[best].head == x ==>
        levels.At(side)[best].head == old(nodes[x].next)
      ensures Contents().At(side.Opposite()) == old(Contents().At(side.Opposite()))
      ensures var v := old(Contents().At(side));
        Contents().At(side) == if d == v[0].qty then v[1..] else [v[0].(qty := v[0].qty - d)] + v[1..]
    {
      hide Consistent;
      SoundIsBounded(mem);
      NodeFacts(mem, side, 0);
      ghost var m := FillStep(mem, side, 0, d);
      FillBook(mem, m, side, 0, d);
      nodes[x] := nodes[x].(qty := nodes[x].qty - d);
      levels := levels.Set(side, Shrunk(levels.At(side), best, d));
      mem := m;
      if nodes[x].qty == 0 {
        Drop(side, best, x, 0);
      }
    }

    /** One turn of the inner loop: trade with the head order of the best level. */
    method Serve(side: Side, opp: Side, limit: nat, best: nat, qty: nat, resting: nat)
      returns (remaining: nat, next: int)
      requires opp == side.Opposite() && Mirrors() && PositiveExcept(mem, NIL) && mem.hole == CLOSED.Set(opp, best)
      requires best in levels.At(opp) && levels.At(opp)[best].head == resting
      requires qty > 0 && Crosses(side, limit, best)
      requires var v := Contents().At(opp); v != [] ==> !Better(opp, v[0].price, best)
      modifies this, nodes
      ensures Mirrors() && PositiveExcept(mem, NIL) && mem.hole == CLOSED.Set(opp, best)
      ensures best in levels.At(opp) && index.Keys <= old(index.Keys)
      ensures remaining < qty && (remaining > 0 ==> next == levels.At(opp)[best].head)
      ensures Contents().At(side) == old(Contents().At(side))
      ensures var v := Contents().At(opp); v != [] ==> !Better(opp, v[0].price, best)
      ensures Sweep(side, limit, Contents().At(opp), remaining)
           == Sweep(side, limit, old(Contents().At(opp)), qty)
    {
      hide Consistent, Sweep, PositiveExcept, BookOf;
      SoundIsBounded(mem);
      HeadServes(mem, opp, best);
      ghost var v := Contents().At(opp);
      next := nodes[resting].next;
      var d := if qty < nodes[resting].qty then qty else nodes[resting].qty;
      Execute(opp, best, resting, d);
      SweepTakes(side, limit, v, qty, d, Contents().At(opp));
      remaining := qty - d;
    }

    /** The inner loop: serve the orders of the best level, oldest first. */
    method SweepLevel(side: Side, limit: nat, best: nat, qty: nat) returns (remaining: nat)
      requires Mirrors() && PositiveExcept(mem, NIL) && mem.hole == CLOSED.Set(side.Opposite(), best)
      requires best in levels.At(side.Opposite()) && levels.At(side.Opposite())[best].head != NIL
      requires qty > 0 && Crosses(side, limit, best)
      requires var v := Contents().At(side.Opposite()); v != [] && v[0].price == best
      modifies this, nodes
      ensures Mirrors() && PositiveExcept(mem, NIL) && mem.hole == CLOSED.Set(side.Opposite(), best)
      ensures best in levels.At(side.Opposite()) && index.Keys <= old(index.Keys)
      ensures remaining < qty
      ensures Contents().At(side) == old(Contents().At(side))
      ensures Sweep(side, limit, Contents().At(side.Opposite()), remaining)
           == Sweep(side, limit, old(Contents().At(side.Opposite())), qty)
    {
      hide Consistent, Sweep, PositiveExcept, BookOf, Crosses;
      var opp := side.Opposite();
      remaining := qty;
      var resting := levels.At(opp)[best].head;
      while resting != NIL && remaining > 0
        invariant Mirrors() && PositiveExcept(mem, NIL) && mem.hole == CLOSED.Set(opp, best)
        invariant best in levels.At(opp) && index.Keys <= old(index.Keys)
        invariant remaining > 0 ==> resting == levels.At(opp)[best].head
        invariant remaining <= qty && (remaining == qty ==> resting != NIL)
        invariant Contents().At(side) == old(Contents().At(side))
        invariant var v := Contents().At(opp); v != [] ==> !Better(opp, v[0].price, best)
        invariant Sweep(side, limit, Contents().At(opp), remaining) == Sweep(side, limit, old(Contents().At(opp)), qty)
        decreases remaining
      {
        HeadIsNode(mem, opp, best);
        remaining, resting := Serve(side, opp, limit, best, remaining, resting);
      }
    }

    /** Phase 1: sweep the opposite side, best level first. */
    method Match(side: Side, limit: nat, qty: nat) returns (remaining: nat)
      requires Valid()
      modifies this, nodes
      ensures Valid() && index.Keys <= old(index.Keys)
      ensures Contents().At(side) == old(Contents().At(side))
      ensures Sweep(side, limit, old(Contents().At(side.Opposite())), qty)
           == Swept(Contents().At(side.Opposite()), remaining)
    {
      hide Consistent, Sweep;
      var opp := side.Opposite();
      remaining := qty;
      while remaining > 0 && levels.At(opp) != map[]
        invariant Valid() && index.Keys <= old(index.Keys)
        invariant Contents().At(side) == old(Contents().At(side))
        invariant Sweep(side, limit, Contents().At(opp), remaining) == Sweep(side, limit, old(Contents().At(opp)), qty)
        decreases remaining
      {
        var best := BestPrice(opp);
        SoundIsBounded(mem);
        LevelHasHead(mem, opp, best);
        if !Crosses(side, limit, best) {
          SweepStops(side, limit, Contents().At(opp), remaining);
          return;
        }
        mem := OpenStep(mem, opp, best);
        remaining := SweepLevel(side, limit, best, remaining);
        mem := CloseStep(mem, opp, best);
        EraseIfEmpty(opp, best);
      }
      if levels.At(opp) == map[] { NoLevels(mem, opp); }
      SweepStops(side, limit, Contents().At(opp), remaining);
    }

    /** Phase 2: the residual rests at the tail of its level, if a node is free. */
    method Rest(id: nat, price: nat, qty: nat, side: Side)
      requires Valid() && id !in index && qty > 0
      modifies this, nodes
      ensures Valid()
      ensures Contents() ==
        var b := old(Contents());
        if |b.buy| + |b.sell| >= nodes.Length then b
        else b.Set(side, Enqueue(side, b.At(side), Resting(id, price, qty)))
    {
      hide Consistent, PositiveExcept, Enqueue, BookOf;
      SoundIsBounded(mem);
      BookSizes(mem);
      ghost var m0 := mem;
      var x := Allocate();
      if x == NIL { return; }
      ghost var o := Order(id, price, qty, side, NIL, NIL);
      ghost var m := RestAll(m0, side, o);
      nodes[x] := nodes[x].(id := id, price := price, qty := qty, side := side);
      if price !in levels.At(side) {
        levels := levels.Set(side, levels.At(side)[price := PriceLevel(price, 0, NIL, NIL)]);
      }
      assert nodes[..] == m0.pool[x := o];
      Append(side, price, x);
      index := index[id := x];
      mem := m;
    }

    /** A new limit order does to the book exactly what the price-time-priority book says: it trades as far as
        its limit admits and books the exact rest. */
    method LimitOrder(id: nat, price: nat, qty: nat, side: Side)
      requires Valid() && !Rests(Contents(), id)
      modifies this, nodes
      ensures Valid()
      ensures Contents() == Submit(old(Contents()), nodes.Length, id, price, qty, side)
      ensures Executes(old(Contents()), Contents(), nodes.Length, id, price, qty, side)
    {
      hide Consistent, Executes, Clean;
      BookIsClean(mem, Buy);
      BookIsClean(mem, Sell);
      SubmitExecutes(Contents(), nodes.Length, id, price, qty, side);
      IndexIsBook(mem, id);
      var remaining := Match(side, price, qty);
      if remaining > 0 {
        Rest(id, price, remaining, side);
      }
    }

    method CancelOrder(id: nat)
      requires Valid()
      modifies this, nodes
      ensures Valid()
      ensures Contents() == Cancel(old(Contents()), id)
      ensures Withdrawn(old(Contents().buy), Contents().buy, id) && Withdrawn(old(Contents().sell), Contents().sell, id)
    {
      hide Consistent, Withdrawn;
      CancelWithdraws(mem, id);
      if id !in index {
        NotResting(mem, id);
        return;
      }
      ghost var k := Locate(mem, id);
      var x := index[id];
      var price, side := nodes[x].price, nodes[x].side;
      CancelIsRemove(mem, side, k);
      Drop(side, price, x, k);
      mem := CloseStep(mem, side, price);
      EraseIfEmpty(side, price);
    }
  }

  /** Any run from the empty book: memory refines the reference book, and the reference book is good. */
  method Replay(maxOrders: nat, cmds: seq<Command>) returns (book: OrderBook)
    requires maxOrders >= 1 && FreshRun(maxOrders, cmds)
    ensures book.Valid() && book.Contents() == Run(maxOrders, cmds) && Good(book.Contents(), maxOrders)
  {
    book := new OrderBook(maxOrders);
    for i := 0 to |cmds|
      invariant book.Valid() && book.nodes.Length == maxOrders && fresh(book) && fresh(book.nodes)
      invariant book.Contents() == Run(maxOrders, cmds[..i]) && FreshRun(maxOrders, cmds[..i])
    {
      FreshPrefix(maxOrders, cmds, i + 1);
      assert cmds[..i+1][..i] == cmds[..i];
      match cmds[i]
      case Limit(id, price, qty, side) => book.LimitOrder(id, price, qty, side);
      case Withdraw(id) => book.CancelOrder(id);
    }
    assert cmds[..|cmds|] == cmds;
    RunIsGood(maxOrders, cmds);
  }
}
