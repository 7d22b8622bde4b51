/** The reference book: each side is one sequence of resting orders in priority order
    (best price first, arrival order within a price). */
module PriceTimeBook {
  import opened Collections

  datatype Side = Buy | Sell {
    function Opposite(): Side { if Buy? then Sell else Buy }
  }

  /** A pair of values, one for each side of the book. */
  datatype Sides<T> = Sides(buy: T, sell: T) {
    function At(side: Side): T { if side.Buy? then buy else sell }
    function Set(side: Side, v: T): Sides<T> {
      if side.Buy? then this.(buy := v) else this.(sell := v)
    }
  }

  datatype Resting = Resting(id: nat, price: nat, qty: nat)

  type Queue = seq<Resting>
  type Book = Sides<Queue>

  /** Price `p` has strictly higher priority than price `q` on `side`. */
  predicate Better(side: Side, p: nat, q: nat) {
    if side.Buy? then p > q else p < q
  }

  /** An incoming order of `side` with limit `limit` may trade at the resting price `p`. */
  predicate Crosses(side: Side, limit: nat, p: nat) {
    if side.Buy? then p <= limit else p >= limit
  }

  datatype Swept = Swept(rest: Queue, left: nat)

  /** Matching: eat the opposite queue from its front while it crosses. */
  function Sweep(side: Side, limit: nat, book: Queue, qty: nat): Swept
    decreases |book|
  {
    if qty == 0 || book == [] || !Crosses(side, limit, book[0].price) then
      Swept(book, qty)
    else if book[0].qty <= qty then
      Sweep(side, limit, book[1..], qty - book[0].qty)
    else
      Swept([book[0].(qty := book[0].qty - qty)] + book[1..], 0)
  }

  /** Where an order of the given price queues: behind every order that is not strictly worse. */
  function QueuePos(side: Side, book: Queue, price: nat): (k: nat)
    ensures k <= |book|
    ensures forall i :: 0 <= i < k ==> !Better(side, price, book[i].price)
    ensures k < |book| ==> Better(side, price, book[k].price)
  {
    if book == [] || Better(side, price, book[0].price) then 0
    else 1 + QueuePos(side, book[1..], price)
  }

  function Enqueue(side: Side, book: Queue, o: Resting): Queue {
    var k := QueuePos(side, book, o.price);
    book[..k] + [o] + book[k..]
  }

  /** A new order: sweep the other side, then rest what is left if a slot is free. */
  function Submit(b: Book, capacity: nat, id: nat, price: nat, qty: nat, side: Side): Book {
    var opp := side.Opposite();
    var swept := Sweep(side, price, b.At(opp), qty);
    var b1 := b.Set(opp, swept.rest);
    if swept.left == 0 || |b1.buy| + |b1.sell| >= capacity then b1
    else b1.Set(side, Enqueue(side, b1.At(side), Resting(id, price, swept.left)))
  }

  function Without(book: Queue, id: nat): Queue {
    if book == [] then []
    else if book[0].id == id then Without(book[1..], id)
    else [book[0]] + Without(book[1..], id)
  }

  function Cancel(b: Book, id: nat): Book {
    Sides(Without(b.buy, id), Without(b.sell, id))
  }

  // ------------------------------------------------------------------ runs

  datatype Command =
    | Limit(id: nat, price: nat, qty: nat, side: Side)
    | Withdraw(id: nat)

  ghost predicate Rests(b: Book, id: nat) {
    (exists i :: 0 <= i < |b.buy| && b.buy[i].id == id) ||
    (exists i :: 0 <= i < |b.sell| && b.sell[i].id == id)
  }

  /** The order id of a new order is not resting at that moment. */
  ghost predicate Fresh(b: Book, c: Command) {
    c.Limit? ==> !Rests(b, c.id)
  }

  function Apply(b: Book, capacity: nat, c: Command): Book {
    match c
    case Limit(id, price, qty, side) => Submit(b, capacity, id, price, qty, side)
    case Withdraw(id) => Cancel(b, id)
  }

  function Run(capacity: nat, cmds: seq<Command>): Book {
    if cmds == [] then Sides([], [])
    else Apply(Run(capacity, cmds[..|cmds|-1]), capacity, cmds[|cmds|-1])
  }

  ghost predicate FreshRun(capacity: nat, cmds: seq<Command>) {
    cmds == [] || (FreshRun(capacity, cmds[..|cmds|-1]) &&
                   Fresh(Run(capacity, cmds[..|cmds|-1]), cmds[|cmds|-1]))
  }

  lemma {:induction false} FreshPrefix(capacity: nat, cmds: seq<Command>, i: nat)
    requires FreshRun(capacity, cmds) && i <= |cmds|
    ensures FreshRun(capacity, cmds[..i])
  {
    if i < |cmds| {
      FreshPrefix(capacity, cmds[..|cmds|-1], i);
      assert cmds[..|cmds|-1][..i] == cmds[..i];
    } else {
      assert cmds[..i] == cmds;
    }
  }

  // ------------------------------------------------------------ properties

  ghost predicate Sorted(side: Side, book: Queue) {
    forall i, j :: 0 <= i < j < |book| ==> !Better(side, book[j].price, book[i].price)
  }

  ghost predicate Positive(book: Queue) {
    forall i :: 0 <= i < |book| ==> book[i].qty > 0
  }

  ghost predicate DistinctIds(book: Queue) {
    forall i, j :: 0 <= i < j < |book| ==> book[i].id != book[j].id
  }

  ghost predicate DisjointIds(a: Queue, b: Queue) {
    forall i, j :: 0 <= i < |a| && 0 <= j < |b| ==> a[i].id != b[j].id
  }

  /** Every bid is strictly below every ask. */
  ghost predicate Uncrossed(b: Book) {
    forall i, j :: 0 <= i < |b.buy| && 0 <= j < |b.sell| ==> b.buy[i].price < b.sell[j].price
  }

  ghost predicate Good(b: Book, capacity: nat) {
    && Sorted(Buy, b.buy) && Sorted(Sell, b.sell)
    && Positive(b.buy) && Positive(b.sell)
    && DistinctIds(b.buy) && DistinctIds(b.sell) && DisjointIds(b.buy, b.sell)
    && Uncrossed(b)
    && |b.buy| + |b.sell| <= capacity
  }

  function Total(book: Queue): nat {
    if book == [] then 0 else book[0].qty + Total(book[1..])
  }

  /** What is left of an order after matching still is that order, at the same price. */
  ghost predicate Remnant(now: Resting, before: Resting) {
    now.id == before.id && now.price == before.price && 0 < now.qty <= before.qty
  }

  ghost predicate LeftFrom(now: Resting, book: Queue) { exists j :: 0 <= j < |book| && Remnant(now, book[j]) }

  /** Fills consume a prefix: `k` orders vanish, at most the next one shrinks and keeps its place,
      the rest is untouched; the quantities add up; and the sweep stops only because it is done or
      because the front no longer crosses. */
  lemma {:induction false} SweepIsPrefix(side: Side, limit: nat, book: Queue, qty: nat) returns (k: nat)
    requires Positive(book)
    ensures k <= |book|
    ensures forall i :: 0 <= i < k ==> Crosses(side, limit, book[i].price)
    ensures var r := Sweep(side, limit, book, qty);
      && |r.rest| == |book| - k
      && (k < |book| ==> Remnant(r.rest[0], book[k]))
      && (k < |book| ==> r.rest[1..] == book[k+1..])
      && (k < |book| && r.rest[0] != book[k] ==> Crosses(side, limit, book[k].price) && r.left == 0)
      && Total(book) + r.left == Total(r.rest) + qty
      && (r.left > 0 && r.rest != [] ==> !Crosses(side, limit, r.rest[0].price))
  {
    if qty == 0 || book == [] || !Crosses(side, limit, book[0].price) {
      k := 0;
    } else if book[0].qty <= qty {
      var k' := SweepIsPrefix(side, limit, book[1..], qty - book[0].qty);
      k := k' + 1;
      forall i | 0 <= i < k ensures Crosses(side, limit, book[i].price) {
        if i > 0 { assert book[i] == book[1..][i-1]; }
      }
      if k < |book| { assert book[1..][k'+1..] == book[k+1..]; }
    } else {
      k := 0;
      var r := Sweep(side, limit, book, qty);
      assert r.rest[1..] == book[1..];
    }
  }

  /** How much of `qty` the order at index `k` receives when the orders before it are served first. */
  function Allotted(side: Side, limit: nat, book: Queue, qty: nat, k: nat): nat
    requires k < |book|
  {
    var ahead := Total(book[..k]);
    if !Crosses(side, limit, book[k].price) || ahead >= qty then 0
    else if book[k].qty <= qty - ahead then book[k].qty else qty - ahead
  }

  function QtyOf(book: Queue, id: nat): nat {
    if book == [] then 0 else (if book[0].id == id then book[0].qty else 0) + QtyOf(book[1..], id)
  }

  lemma {:induction false} QtyOfAbsent(book: Queue, id: nat)
    requires forall i :: 0 <= i < |book| ==> book[i].id != id
    ensures QtyOf(book, id) == 0
  {
    if book != [] { QtyOfAbsent(book[1..], id); }
  }

  /** Closed form of price-time priority: each resting order loses exactly its allotment. */
  lemma {:induction false} SweepAllots(side: Side, limit: nat, book: Queue, qty: nat, k: nat)
    requires k < |book| && Positive(book) && DistinctIds(book) && Sorted(side.Opposite(), book)
    ensures QtyOf(Sweep(side, limit, book, qty).rest, book[k].id)
         == book[k].qty - Allotted(side, limit, book, qty, k)
  {
    if qty == 0 || !Crosses(side, limit, book[0].price) {
      if k > 0 { assert !Better(side.Opposite(), book[k].price, book[0].price); }
      QtyOfPresent(book, k);
    } else if book[0].qty <= qty {
      if k == 0 {
        FirstVanishes(side, limit, book, qty);
      } else {
        SweepAllots(side, limit, book[1..], qty - book[0].qty, k - 1);
        assert book[..k] == [book[0]] + book[1..][..k-1];
      }
    } else {
      FirstShrinks(side, limit, book, qty, k);
    }
  }

  /** A sweep leaves nothing of an id that was not there. */
  lemma {:induction false} SweepLeavesNone(side: Side, limit: nat, book: Queue, qty: nat, id: nat)
    requires Positive(book) && Sorted(side.Opposite(), book)
    requires forall i :: 0 <= i < |book| ==> book[i].id != id
    ensures QtyOf(Sweep(side, limit, book, qty).rest, id) == 0
  {
    hide Sweep, QtyOf, Crosses, Better, Positive, Sorted;
    var rest := Sweep(side, limit, book, qty).rest;
    var d := SweepRemnants(side, limit, book, qty);
    forall i | 0 <= i < |rest| ensures rest[i].id != id { assert Remnant(rest[i], book[d+i]); }
    QtyOfAbsent(rest, id);
  }

  lemma {:induction false} FirstVanishes(side: Side, limit: nat, book: Queue, qty: nat)
    requires book != [] && Positive(book) && DistinctIds(book) && Sorted(side.Opposite(), book)
    requires 0 < book[0].qty <= qty && Crosses(side, limit, book[0].price)
    ensures QtyOf(Sweep(side, limit, book, qty).rest, book[0].id) == book[0].qty - Allotted(side, limit, book, qty, 0)
  {
    hide QtyOf, Crosses, Better;
    assert book[..0] == [];
    SweepLeavesNone(side, limit, book[1..], qty - book[0].qty, book[0].id);
  }

  lemma {:induction false} FirstShrinks(side: Side, limit: nat, book: Queue, qty: nat, k: nat)
    requires k < |book| && Positive(book) && DistinctIds(book)
    requires 0 < qty < book[0].qty && Crosses(side, limit, book[0].price)
    ensures QtyOf(Sweep(side, limit, book, qty).rest, book[k].id) == book[k].qty - Allotted(side, limit, book, qty, k)
  {
    var rest := [book[0].(qty := book[0].qty - qty)] + book[1..];
    assert Sweep(side, limit, book, qty) == Swept(rest, 0);
    hide Sweep, QtyOf;
    assert rest[k] == if k == 0 then book[0].(qty := book[0].qty - qty) else book[k];
    QtyOfPresent(rest, k);
    assert book[..k] == if k == 0 then [] else [book[0]] + book[1..][..k-1];
  }

  lemma {:induction false} QtyOfPresent(book: Queue, k: nat)
    requires k < |book| && DistinctIds(book)
    ensures QtyOf(book, book[k].id) == book[k].qty
  {
    if k == 0 { QtyOfAbsent(book[1..], book[0].id); }
    else { QtyOfPresent(book[1..], k - 1); }
  }

  /** One trade at the front leaves the rest of the sweep to do. */
  lemma SweepTakes(side: Side, limit: nat, v: Queue, qty: nat, d: nat, w: Queue)
    requires v != [] && Crosses(side, limit, v[0].price) && 0 < v[0].qty && qty > 0
    requires d == if qty < v[0].qty then qty else v[0].qty
    requires w == if d == v[0].qty then v[1..] else [v[0].(qty := v[0].qty - d)] + v[1..]
    ensures Sweep(side, limit, w, qty - d) == Sweep(side, limit, v, qty)
  {}

  lemma SweepStops(side: Side, limit: nat, v: Queue, qty: nat)
    requires qty == 0 || v == [] || !Crosses(side, limit, v[0].price)
    ensures Sweep(side, limit, v, qty) == Swept(v, qty)
  {}

  /** What being cut from the front of a book keeps. */
  lemma {:induction false} RemnantsKeep(side: Side, book: Queue, rest: Queue, k: nat, other: Queue)
    requires Positive(book) && DistinctIds(book) && Sorted(side, book) && DisjointIds(book, other)
    requires |rest| + k == |book| && forall i :: 0 <= i < |rest| ==> Remnant(rest[i], book[k+i])
    ensures Positive(rest) && DistinctIds(rest) && Sorted(side, rest) && DisjointIds(rest, other)
  {
    hide Better;
    forall i, j | 0 <= i < j < |rest| ensures rest[i].id != rest[j].id && !Better(side, rest[j].price, rest[i].price) {
      assert Remnant(rest[i], book[k+i]) && Remnant(rest[j], book[k+j]);
    }
    forall i, j | 0 <= i < |rest| && 0 <= j < |other| ensures rest[i].id != other[j].id {
      assert Remnant(rest[i], book[k+i]);
    }
  }

  /** What is left of a sweep is the book without its first `k` orders, the next perhaps cut. */
  lemma {:induction false} SweepRemnants(side: Side, limit: nat, book: Queue, qty: nat) returns (k: nat)
    requires Positive(book) && Sorted(side.Opposite(), book)
    ensures var r := Sweep(side, limit, book, qty);
      && |r.rest| + k == |book| && (forall i :: 0 <= i < |r.rest| ==> Remnant(r.rest[i], book[k+i]))
      && (r.left > 0 ==> forall i :: 0 <= i < |r.rest| ==> !Crosses(side, limit, r.rest[i].price))
  {
    hide Sweep;
    k := SweepIsPrefix(side, limit, book, qty);
    var r := Sweep(side, limit, book, qty);
    forall i | 0 <= i < |r.rest| ensures Remnant(r.rest[i], book[k+i]) {
      if i > 0 { assert r.rest[i] == r.rest[1..][i-1] == book[k+1..][i-1]; }
    }
    if r.left > 0 {
      forall i | 0 <= i < |r.rest| ensures !Crosses(side, limit, r.rest[i].price) {
        if i > 0 { assert !Better(side.Opposite(), book[k+i].price, book[k].price); }
      }
    }
  }

  lemma {:induction false} SweepKeeps(side: Side, limit: nat, book: Queue, qty: nat, other: Queue)
    requires Positive(book) && DistinctIds(book) && Sorted(side.Opposite(), book) && DisjointIds(book, other)
    ensures var r := Sweep(side, limit, book, qty);
      && |r.rest| <= |book|
      && Positive(r.rest) && DistinctIds(r.rest) && Sorted(side.Opposite(), r.rest) && DisjointIds(r.rest, other)
      && (forall i :: 0 <= i < |r.rest| ==> LeftFrom(r.rest[i], book))
      && (r.left > 0 ==> forall i :: 0 <= i < |r.rest| ==> !Crosses(side, limit, r.rest[i].price))
  {
    hide Sweep;
    var k := SweepRemnants(side, limit, book, qty);
    var rest := Sweep(side, limit, book, qty).rest;
    RemnantsKeep(side.Opposite(), book, rest, k, other);
    forall i | 0 <= i < |rest| ensures LeftFrom(rest[i], book) { assert Remnant(rest[i], book[k+i]); }
  }

  /** Both sides keep their order, their ids and their quantities. */
  ghost predicate Clean(side: Side, book: Queue) {
    Sorted(side, book) && Positive(book) && DistinctIds(book)
  }

  lemma EnqueueAt(side: Side, book: Queue, o: Resting, i: nat)
    requires i < |Enqueue(side, book, o)|
    ensures |Enqueue(side, book, o)| == |book| + 1
    ensures var k := QueuePos(side, book, o.price);
      Enqueue(side, book, o)[i] == (if i < k then book[i] else if i == k then o else book[i-1])
  {}

  lemma EnqueueKeeps(side: Side, book: Queue, o: Resting)
    requires Clean(side, book) && o.qty > 0
    requires forall i :: 0 <= i < |book| ==> book[i].id != o.id
    ensures Clean(side, Enqueue(side, book, o))
  {
    var k := QueuePos(side, book, o.price);
    var q := Enqueue(side, book, o);
    forall i | 0 <= i < |q| ensures q[i].qty > 0 { EnqueueAt(side, book, o, i); }
    forall i, j | 0 <= i < j < |q| ensures !Better(side, q[j].price, q[i].price) && q[i].id != q[j].id {
      EnqueueAt(side, book, o, i);
      EnqueueAt(side, book, o, j);
    }
  }

  /** No id in common, and no pair of prices that could trade. */
  ghost predicate Apart(side: Side, mine: Queue, theirs: Queue) {
    forall i, j :: 0 <= i < |mine| && 0 <= j < |theirs| ==>
      mine[i].id != theirs[j].id && Better(side, theirs[j].price, mine[i].price)
  }

  lemma GoodBySide(b: Book, capacity: nat, side: Side)
    ensures Good(b, capacity) <==>
      && Clean(side, b.At(side)) && Clean(side.Opposite(), b.At(side.Opposite()))
      && Apart(side, b.At(side), b.At(side.Opposite()))
      && |b.buy| + |b.sell| <= capacity
  {}

  lemma SweepApart(side: Side, limit: nat, mine: Queue, book: Queue, qty: nat)
    requires Clean(side.Opposite(), book) && Apart(side, mine, book)
    ensures var r := Sweep(side, limit, book, qty); Clean(side.Opposite(), r.rest) && Apart(side, mine, r.rest)
  {
    var r := Sweep(side, limit, book, qty);
    SweepKeeps(side, limit, book, qty, mine);
    forall i, j | 0 <= i < |mine| && 0 <= j < |r.rest|
      ensures mine[i].id != r.rest[j].id && Better(side, r.rest[j].price, mine[i].price)
    {
      var k :| 0 <= k < |book| && Remnant(r.rest[j], book[k]);
    }
  }

  lemma EnqueueApart(side: Side, mine: Queue, o: Resting, theirs: Queue)
    requires Apart(side, mine, theirs)
    requires forall j :: 0 <= j < |theirs| ==> theirs[j].id != o.id && !Crosses(side, o.price, theirs[j].price)
    ensures Apart(side, Enqueue(side, mine, o), theirs)
  {
    var q := Enqueue(side, mine, o);
    forall i, j | 0 <= i < |q| && 0 <= j < |theirs|
      ensures q[i].id != theirs[j].id && Better(side, theirs[j].price, q[i].price)
    {
      EnqueueAt(side, mine, o, i);
    }
  }

  lemma SubmitKeepsGood(b: Book, capacity: nat, id: nat, price: nat, qty: nat, side: Side)
    requires Good(b, capacity) && !Rests(b, id)
    ensures Good(Submit(b, capacity, id, price, qty, side), capacity)
  {
    var opp := side.Opposite();
    var mine, theirs := b.At(side), b.At(opp);
    var r := Sweep(side, price, theirs, qty);
    GoodBySide(b, capacity, side);
    SweepApart(side, price, mine, theirs, qty);
    SweepKeeps(side, price, theirs, qty, mine);
    var a := Submit(b, capacity, id, price, qty, side);
    assert a.At(opp) == r.rest;
    if a.At(side) != mine {
      var o := Resting(id, price, r.left);
      assert a.At(side) == Enqueue(side, mine, o);
      EnqueueKeeps(side, mine, o);
      EnqueueApart(side, mine, o, r.rest);
    }
    GoodBySide(a, capacity, side);
  }

  lemma {:induction false} WithoutNone(book: Queue, id: nat)
    requires forall i :: 0 <= i < |book| ==> book[i].id != id
    ensures Without(book, id) == book
  {
    if book != [] { WithoutNone(book[1..], id); }
  }

  lemma {:induction false} WithoutOne(book: Queue, k: nat)
    requires k < |book| && forall i :: 0 <= i < |book| && i != k ==> book[i].id != book[k].id
    ensures Without(book, book[k].id) == RemoveAt(book, k)
  {
    if k == 0 {
      WithoutNone(book[1..], book[0].id);
      assert RemoveAt(book, 0) == book[1..];
    } else {
      WithoutOne(book[1..], k - 1);
      assert RemoveAt(book, k) == [book[0]] + RemoveAt(book[1..], k - 1);
    }
  }

  lemma {:induction false} WithoutIsSubsequence(book: Queue, id: nat)
    ensures forall i :: 0 <= i < |Without(book, id)| ==> Without(book, id)[i] in book && Without(book, id)[i].id != id
    ensures |Without(book, id)| <= |book|
  {
    if book != [] { WithoutIsSubsequence(book[1..], id); }
  }

  lemma FrontKeeps(side: Side, o: Resting, book: Queue)
    requires Sorted(side, book) && Positive(book) && DistinctIds(book) && o.qty > 0
    requires forall i :: 0 <= i < |book| ==> !Better(side, book[i].price, o.price) && book[i].id != o.id
    ensures var q := [o] + book; Sorted(side, q) && Positive(q) && DistinctIds(q)
  {
    hide Better;
  }

  lemma {:induction false} WithoutKeeps(side: Side, book: Queue, id: nat)
    requires Sorted(side, book) && Positive(book) && DistinctIds(book)
    ensures var q := Without(book, id); Sorted(side, q) && Positive(q) && DistinctIds(q)
  {
    hide Better;
    if book != [] {
      var rest := Without(book[1..], id);
      WithoutKeeps(side, book[1..], id);
      WithoutIsSubsequence(book[1..], id);
      forall i | 0 <= i < |rest| ensures !Better(side, rest[i].price, book[0].price) && rest[i].id != book[0].id {
        var j :| 0 <= j < |book| - 1 && book[j+1] == rest[i];
      }
      hide Sorted, Positive, DistinctIds;
      FrontKeeps(side, book[0], rest);
    }
  }

  lemma CancelKeepsGood(b: Book, capacity: nat, id: nat)
    requires Good(b, capacity)
    ensures Good(Cancel(b, id), capacity) && !Rests(Cancel(b, id), id)
  {
    WithoutKeeps(Buy, b.buy, id);
    WithoutKeeps(Sell, b.sell, id);
    WithoutIsSubsequence(b.buy, id);
    WithoutIsSubsequence(b.sell, id);
  }

  /** Safety over whole runs: sorted, uncrossed, no empty order, ids unique, within the pool. */
  lemma {:induction false} RunIsGood(capacity: nat, cmds: seq<Command>)
    requires FreshRun(capacity, cmds)
    ensures Good(Run(capacity, cmds), capacity)
  {
    if cmds != [] {
      RunIsGood(capacity, cmds[..|cmds|-1]);
      var b := Run(capacity, cmds[..|cmds|-1]);
      match cmds[|cmds|-1]
      case Limit(id, price, qty, side) => SubmitKeepsGood(b, capacity, id, price, qty, side);
      case Withdraw(id) => CancelKeepsGood(b, capacity, id);
    }
  }

  lemma {:induction false} TotalConcat(a: Queue, b: Queue)
    ensures Total(a + b) == Total(a) + Total(b)
  {
    if a == [] { assert a + b == b; }
    else { TotalConcat(a[1..], b); assert (a + b)[1..] == a[1..] + b; }
  }

  /** Conservation: what was submitted is what left the other side plus what was booked; a residual
      is dropped only when the resting orders fill the whole pool. */
  lemma SubmitConserves(b: Book, capacity: nat, id: nat, price: nat, qty: nat, side: Side)
    requires Good(b, capacity)
    ensures var opp := side.Opposite();
      var a := Submit(b, capacity, id, price, qty, side);
      var taken := Total(b.At(opp)) - Total(a.At(opp));
      var booked := Total(a.At(side)) - Total(b.At(side));
      && 0 <= taken && 0 <= booked && taken + booked <= qty
      && (taken + booked < qty ==> booked == 0 && |a.buy| + |a.sell| == capacity
                                   && a.At(side) == b.At(side))
  {
    var opp := side.Opposite();
    var mine, theirs := b.At(side), b.At(opp);
    assert Positive(theirs);
    var r := Sweep(side, price, theirs, qty);
    var k := SweepIsPrefix(side, price, theirs, qty);
    SweepLeftAtMost(side, price, theirs, qty);
    var a := Submit(b, capacity, id, price, qty, side);
    assert a.At(opp) == r.rest;
    if a.At(side) != mine {
      assert a.At(side) == Enqueue(side, mine, Resting(id, price, r.left));
      EnqueueTotal(side, mine, Resting(id, price, r.left));
    }
  }

  lemma EnqueueTotal(side: Side, q: Queue, o: Resting)
    ensures Total(Enqueue(side, q, o)) == Total(q) + o.qty
  {
    var p := QueuePos(side, q, o.price);
    TotalConcat(q[..p] + [o], q[p..]);
    TotalConcat(q[..p], [o]);
    TotalConcat(q[..p], q[p..]);
    assert q == q[..p] + q[p..];
  }

  lemma {:induction false} SweepLeftAtMost(side: Side, limit: nat, book: Queue, qty: nat)
    ensures Sweep(side, limit, book, qty).left <= qty
  {
    if qty != 0 && book != [] && Crosses(side, limit, book[0].price) && book[0].qty <= qty {
      SweepLeftAtMost(side, limit, book[1..], qty - book[0].qty);
    }
  }
}
