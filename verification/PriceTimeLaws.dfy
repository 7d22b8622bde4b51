/** What an order does to the book, said of prices and quantities alone: what may be touched, in which order,
    and where a residual goes. */
module PriceTimeLaws {
  import opened Collections
  import opened PriceTimeBook

  /** The price of a resting order is within the limit of an order of `side`, in numbers. */
  ghost predicate Admits(side: Side, limit: nat, o: Resting) {
    if side.Buy? then o.price <= limit else o.price >= limit
  }

  /** The first `k` orders are gone and the next one, if it changed, lost quantity only; both only within the
      limit. All orders behind it stand as they were, in their order. */
  ghost predicate CutAt(side: Side, limit: nat, before: Queue, after: Queue, k: nat) {
    && k <= |before| && |after| == |before| - k
    && (forall i :: 0 <= i < k ==> Admits(side, limit, before[i]))
    && (forall i {:trigger after[i]} :: 0 < i < |after| ==> after[i] == before[k+i])
    && (after != [] && after[0] != before[k] ==>
         Admits(side, limit, before[k]) && exists q :: 0 < q < before[k].qty && after[0] == before[k].(qty := q))
  }

  ghost predicate Traded(side: Side, limit: nat, before: Queue, after: Queue) {
    exists k :: CutAt(side, limit, before, after, k)
  }

  /** Nothing is left that the limit admits. */
  ghost predicate Exhausted(side: Side, limit: nat, after: Queue) {
    forall i :: 0 <= i < |after| ==> !Admits(side, limit, after[i])
  }

  /** The residual stands behind every order that is as good or better and before every worse one; nothing else
      moved. */
  ghost predicate Booked(side: Side, before: Queue, after: Queue, o: Resting) {
    exists k :: 0 <= k <= |before| && after == before[..k] + [o] + before[k..]
      && (forall i :: 0 <= i < k ==> if side.Buy? then before[i].price >= o.price else before[i].price <= o.price)
      && (forall i :: k <= i < |before| ==>
           if side.Buy? then before[i].price < o.price else before[i].price > o.price)
  }

  /** A limit order: it trades as much as the limit admits, and books the exact rest unless the pool is full. */
  ghost predicate Executes(b: Book, a: Book, capacity: nat, id: nat, price: nat, qty: nat, side: Side) {
    var mine, theirs := if side.Buy? then b.buy else b.sell, if side.Buy? then b.sell else b.buy;
    var mine', theirs' := if side.Buy? then a.buy else a.sell, if side.Buy? then a.sell else a.buy;
    var taken := Total(theirs) - Total(theirs');
    && Traded(side, price, theirs, theirs')
    && 0 <= taken <= qty && (taken < qty ==> Exhausted(side, price, theirs'))
    && if taken < qty && |mine| + |theirs'| < capacity then Booked(side, mine, mine', Resting(id, price, qty - taken))
       else mine' == mine
  }

  lemma {:induction false} SweepTrades(side: Side, limit: nat, book: Queue, qty: nat)
    requires Clean(side.Opposite(), book)
    ensures var r := Sweep(side, limit, book, qty);
      && Traded(side, limit, book, r.rest)
      && Total(book) - Total(r.rest) == qty - r.left && r.left <= qty
      && (r.left > 0 ==> Exhausted(side, limit, r.rest))
  {
    hide Sweep, Total, Sorted;
    var r := Sweep(side, limit, book, qty);
    var k := SweepIsPrefix(side, limit, book, qty);
    SweepLeftAtMost(side, limit, book, qty);
    SweepKeeps(side, limit, book, qty, []);
    CutTrades(side, limit, book, r.rest, k);
  }

  lemma {:induction false} CutTrades(side: Side, limit: nat, book: Queue, rest: Queue, k: nat)
    requires k <= |book| && |rest| == |book| - k
    requires forall i :: 0 <= i < k ==> Crosses(side, limit, book[i].price)
    requires k < |book| ==> Remnant(rest[0], book[k]) && rest[1..] == book[k+1..]
    requires k < |book| && rest[0] != book[k] ==> Crosses(side, limit, book[k].price)
    ensures CutAt(side, limit, book, rest, k)
  {
    forall i | 0 < i < |rest| ensures rest[i] == book[k+i] { assert rest[i] == rest[1..][i-1] == book[k+1..][i-1]; }
    if rest != [] && rest[0] != book[k] { assert rest[0] == book[k].(qty := rest[0].qty); }
  }

  /** An order beyond the limit is never touched. */
  lemma BeyondLimitStands(side: Side, limit: nat, before: Queue, after: Queue, o: Resting)
    requires Traded(side, limit, before, after) && o in before
    requires if side.Buy? then o.price > limit else o.price < limit
    ensures o in after
  {
    var k :| CutAt(side, limit, before, after, k);
    var i :| 0 <= i < |before| && before[i] == o;
    assert after[i-k] == o;
  }

  lemma {:induction false} EnqueueBooks(side: Side, book: Queue, o: Resting)
    requires Sorted(side, book)
    ensures Booked(side, book, Enqueue(side, book, o), o)
  {
    hide QueuePos;
    var k := QueuePos(side, book, o.price);
    assert Enqueue(side, book, o) == book[..k] + [o] + book[k..];
    forall i | k <= i < |book| ensures if side.Buy? then book[i].price < o.price else book[i].price > o.price {
      assert !Better(side, book[i].price, book[k].price) by { if i > k {} }
    }
  }

  /** Every limit order does exactly that. */
  lemma {:induction false} SubmitExecutes(b: Book, capacity: nat, id: nat, price: nat, qty: nat, side: Side)
    requires Clean(Buy, b.buy) && Clean(Sell, b.sell)
    ensures Executes(b, Submit(b, capacity, id, price, qty, side), capacity, id, price, qty, side)
  {
    hide Sweep, Enqueue, Total, Booked, Traded, Exhausted;
    var opp := side.Opposite();
    var swept := Sweep(side, price, b.At(opp), qty);
    SweepTrades(side, price, b.At(opp), qty);
    EnqueueBooks(side, b.At(side), Resting(id, price, swept.left));
  }

  /** A cancel takes out the one order of that id, if there is one, and moves nothing else. */
  ghost predicate Withdrawn(before: Queue, after: Queue, id: nat) {
    if Has(before, id) then exists k :: 0 <= k < |before| && before[k].id == id && after == before[..k] + before[k+1..]
    else after == before
  }

  ghost predicate Has(book: Queue, id: nat) { exists i :: 0 <= i < |book| && book[i].id == id }

  lemma {:induction false} WithoutWithdraws(book: Queue, id: nat)
    requires DistinctIds(book)
    ensures Withdrawn(book, Without(book, id), id)
  {
    if k :| 0 <= k < |book| && book[k].id == id {
      WithoutOne(book, k);
      assert RemoveAt(book, k) == book[..k] + book[k+1..];
    } else {
      WithoutNone(book, id);
    }
  }

  /** Over every fresh run: each limit order trades and rests as above, each cancel withdraws one order. */
  lemma {:induction false} RunExecutes(capacity: nat, cmds: seq<Command>)
    requires FreshRun(capacity, cmds) && cmds != []
    ensures var b, a := Run(capacity, cmds[..|cmds|-1]), Run(capacity, cmds);
      match cmds[|cmds|-1]
      case Limit(id, price, qty, side) => Executes(b, a, capacity, id, price, qty, side)
      case Withdraw(id) => Withdrawn(b.buy, a.buy, id) && Withdrawn(b.sell, a.sell, id)
  {
    hide Executes, Withdrawn, Submit;
    var b := Run(capacity, cmds[..|cmds|-1]);
    RunIsGood(capacity, cmds[..|cmds|-1]);
    match cmds[|cmds|-1]
    case Limit(id, price, qty, side) => SubmitExecutes(b, capacity, id, price, qty, side);
    case Withdraw(id) => WithoutWithdraws(b.buy, id); WithoutWithdraws(b.sell, id);
  }
}
