/** The pool allocator and the cache whose list and map take their nodes from two pools. */
module LruCaches {
  import opened Collections
  import opened Recency

  /** Free block `i` points at the next one. */
  ghost predicate Linked(next: seq<int>, free: seq<nat>, i: nat)
    requires i < |free|
  {
    free[i] < |next| && next[free[i]] == if i + 1 < |free| then free[i+1] else -1
  }

  /** The free blocks in the order the allocator hands them out. */
  ghost predicate Chain(next: seq<int>, head: int, free: seq<nat>) {
    && NoTwice(free)
    && head == (if free == [] then -1 else free[0])
    && forall i {:trigger Linked(next, free, i)} :: 0 <= i < |free| ==> Linked(next, free, i)
  }

  lemma ChainPops(next: seq<int>, head: int, free: seq<nat>)
    requires Chain(next, head, free) && head >= 0
    ensures free != [] && head == free[0] && head < |next| && Chain(next, next[head], free[1..])
  {
    assert Linked(next, free, 0);
    forall i | 0 <= i < |free| - 1 ensures Linked(next, free[1..], i) { assert Linked(next, free, i + 1); }
  }

  lemma ChainPushes(next: seq<int>, head: int, free: seq<nat>, b: nat)
    requires Chain(next, head, free) && b < |next| && b !in free
    ensures Chain(next[b := head], b, [b] + free)
  {
    var s, next' := [b] + free, next[b := head];
    assert forall i :: 1 <= i < |s| ==> s[i] == free[i-1];
    forall i | 0 <= i < |s| ensures Linked(next', s, i) {
      if i > 0 { assert Linked(next, free, i - 1); }
    }
  }

  /** A pool of blocks with the free list threaded through them; -1 is the null pointer. */
  class Pool {
    var next: seq<int>
    var head: int
    ghost var free: seq<nat>

    ghost predicate Valid()
      reads this
    {
      Chain(next, head, free)
    }

    constructor (blocks: nat)
      ensures Valid() && |next| == blocks && |free| == blocks
    {
      next := seq(blocks, _ => -1);
      head := -1;
      free := [];
      new;
      for i := 0 to blocks
        invariant |next| == blocks && |free| == i && Chain(next, head, free)
        invariant forall b :: b in free ==> b < i
      {
        ChainPushes(next, head, free, i);
        next := next[i := head];
        head := i;
        free := [i] + free;
      }
    }

    /** No block left is the allocator's exception. */
    method Allocate() returns (r: Option<nat>)
      requires Valid()
      modifies this
      ensures Valid() && next == old(next)
      ensures r == (if old(free) == [] then None else Some(old(free)[0]))
      ensures free == (if old(free) == [] then [] else old(free)[1..])
    {
      if head == -1 { return None; }
      ChainPops(next, head, free);
      r := Some(head);
      head := next[head];
      free := free[1..];
    }

    method Deallocate(b: nat)
      requires Valid() && b < |next| && b !in free
      modifies this
      ensures Valid() && |next| == old(|next|) && free == [b] + old(free)
    {
      ChainPushes(next, head, free, b);
      next := next[b := head];
      head := b;
      free := [b] + free;
    }
  }

  // ------------------------------------------------------------ what the parts hold

  /** The list's contents: `order` names its nodes front to back. */
  function Contents<K, V>(order: seq<nat>, items: map<nat, Entry<K, V>>): (s: seq<Entry<K, V>>)
    requires forall i :: 0 <= i < |order| ==> order[i] in items
    ensures |s| == |order|
    ensures forall i {:trigger s[i]} {:trigger order[i]} :: 0 <= i < |order| ==> s[i] == items[order[i]]
  {
    seq(|order|, i requires 0 <= i < |order| => items[order[i]])
  }

  /** A map node: its own block, and the list node its key leads to. */
  datatype MapNode = MapNode(block: nat, node: nat)

  /** The map node of `k` leads to the list node that holds `k`. */
  ghost predicate Leads<K(!new), V(!new)>(order: seq<nat>, items: map<nat, Entry<K, V>>, index: map<K, MapNode>, k: K) {
    k in index && index[k].node in order && index[k].node in items && items[index[k].node].key == k
  }

  /** List node `b` holds a key that leads back to it. */
  ghost predicate Held<K(!new), V(!new)>(order: seq<nat>, items: map<nat, Entry<K, V>>, index: map<K, MapNode>,
                                         b: nat) {
    b in order && b in items && items[b].key in index && index[items[b].key].node == b
  }

  /** Each node is in the list once; list and map hold the same keys. */
  ghost predicate Indexed<K(!new), V(!new)>(order: seq<nat>, items: map<nat, Entry<K, V>>, index: map<K, MapNode>) {
    && NoTwice(order) && |items| == |order| && |index| == |order|
    && (forall b {:trigger b in items} {:trigger b in order} ::
         b in items || b in order ==> Held(order, items, index, b))
    && (forall k {:trigger k in index} :: k in index ==> Leads(order, items, index, k))
  }

  /** Map nodes have blocks of their own. */
  ghost predicate Blocks<K(!new)>(index: map<K, MapNode>, live: set<nat>) {
    && |live| == |index|
    && (forall k :: k in index ==> index[k].block in live)
    && (forall k, l :: k in index && l in index && k != l ==> index[k].block != index[l].block)
  }

  /** `live` and `free` share out the blocks below `n`. */
  ghost predicate Shares(live: set<nat>, free: seq<nat>, n: nat) {
    && NoTwice(free)
    && |live| + |free| == n
    && (forall b :: b in live ==> b < n && b !in free)
    && (forall b :: b in free ==> b < n)
  }

  lemma TakesBlock(live: set<nat>, free: seq<nat>, n: nat)
    requires Shares(live, free, n) && free != []
    ensures free[0] !in live && free[0] < n && Shares(live + {free[0]}, free[1..], n)
  {
    assert free[0] in free;
    assert forall b :: b in free[1..] ==> b in free;
  }

  lemma GivesBlock(live: set<nat>, free: seq<nat>, n: nat, b: nat)
    requires Shares(live, free, n) && b in live
    ensures b < n && b !in free && Shares(live - {b}, [b] + free, n)
  {
    assert forall i :: 1 <= i < |[b] + free| ==> ([b] + free)[i] == free[i-1];
  }

  /** Every block is free or live. */
  lemma SharesCovers(live: set<nat>, free: seq<nat>, n: nat, b: nat)
    requires Shares(live, free, n) && b < n
    ensures b in live <==> b !in free
  {
    if b !in live && b !in free {
      var f := SetOf(free);
      assert live !! f;
      assert live + f < Upto(n) by { assert b in Upto(n) && b !in live + f; }
      SubsetSize(live + f, Upto(n));
    }
  }

  /** The elements of a sequence without repetition. */
  ghost function SetOf(s: seq<nat>): (r: set<nat>)
    requires NoTwice(s)
    ensures |r| == |s| && forall x :: x in r <==> x in s
  {
    if s == [] then {} else
      var p := s[..|s|-1];
      assert s == p + [s[|s|-1]];
      NoTwiceLast(p, s[|s|-1]);
      SetOf(p) + {s[|s|-1]}
  }

  // ---------------------------------------------------------------- list and map steps

  /** The list, read through its nodes. */
  ghost function View<K(!new), V(!new)>(order: seq<nat>, items: map<nat, Entry<K, V>>,
                                        index: map<K, MapNode>): seq<Entry<K, V>>
    requires Indexed(order, items, index)
  {
    Contents(order, items)
  }

  lemma FindsNode<K(!new), V(!new)>(order: seq<nat>, items: map<nat, Entry<K, V>>, index: map<K, MapNode>, k: K)
    requires Indexed(order, items, index)
    ensures var i := Find(View(order, items, index), k);
            (i < |order| <==> k in index) && (k in index ==> order[i] == index[k].node)
  {
    var list := View(order, items, index);
    var i := Find(list, k);
    if i < |order| { assert order[i] in order; }
    if k in index {
      var j :| 0 <= j < |order| && order[j] == index[k].node;
      assert list[j].key == k;
    }
  }

  /** Splicing a node to the front, with its value set to `e`'s. */
  lemma {:induction false} Splices<K(!new), V(!new)>(order: seq<nat>, items: map<nat, Entry<K, V>>,
                                                     index: map<K, MapNode>, i: nat, e: Entry<K, V>)
    requires Indexed(order, items, index) && i < |order| && order[i] in items && e.key == items[order[i]].key
    ensures var b := order[i]; var order', items' := [b] + Without(order, b), items[b := e];
            && Indexed(order', items', index)
            && View(order', items', index) == ToFront(View(order, items, index), i, e)
  {
    hide NoTwice, Without;
    var b := order[i];
    assert NoTwice(order);
    WithoutAt(order, i);
    DropAt(order, i);
    NoTwiceFront(Without(order, b), b);
    MovedSame(order, i);
    SameNodes(order, [b] + Without(order, b), items, index, b, e);
    hide Indexed;
    SplicedView(order, [b] + Without(order, b), items, i, e);
  }

  lemma {:induction false} SameNodes<K(!new), V(!new)>(order: seq<nat>, order': seq<nat>,
                                                       items: map<nat, Entry<K, V>>, index: map<K, MapNode>, b: nat,
                                                       e: Entry<K, V>)
    requires Indexed(order, items, index) && b in items && e.key == items[b].key
    requires NoTwice(order') && |order'| == |order| && forall c :: c in order <==> c in order'
    ensures Indexed(order', items[b := e], index)
  {
    hide NoTwice;
    var items' := items[b := e];
    assert items'.Keys == items.Keys && |items'| == |items| by { assert |items'.Keys| == |items'|; }
    forall c | c in items' || c in order' ensures Held(order', items', index, c) {
      assert Held(order, items, index, c);
    }
    forall k | k in index ensures Leads(order', items', index, k) { assert Leads(order, items, index, k); }
  }

  lemma SplicedView<K, V>(order: seq<nat>, order': seq<nat>, items: map<nat, Entry<K, V>>, i: nat, e: Entry<K, V>)
    requires i < |order| && NoTwice(order) && (forall j :: 0 <= j < |order| ==> order[j] in items)
    requires order' == [order[i]] + (order[..i] + order[i+1..])
    requires forall j :: 0 <= j < |order'| ==> order'[j] in items[order[i] := e]
    ensures Contents(order', items[order[i] := e]) == ToFront(Contents(order, items), i, e)
  {}

  lemma MovedSame(order: seq<nat>, i: nat)
    requires i < |order|
    ensures forall c :: c in order <==> c in [order[i]] + (order[..i] + order[i+1..])
  {
    assert order == order[..i] + [order[i]] + order[i+1..];
  }

  lemma NoTwiceFront(s: seq<nat>, b: nat)
    requires NoTwice(s) && b !in s
    ensures NoTwice([b] + s)
  {}

  /** Erasing the last list node and its map node. */
  lemma {:induction false} Evicts<K(!new), V(!new)>(order: seq<nat>, items: map<nat, Entry<K, V>>,
                                                    index: map<K, MapNode>)
    requires Indexed(order, items, index) && order != [] && order[|order|-1] in items
    ensures var b := order[|order|-1]; var k := items[b].key;
            && k in index
            && Indexed(order[..|order|-1], items - {b}, index - {k})
            && View(order[..|order|-1], items - {b}, index - {k}) == View(order, items, index)[..|order|-1]
  {
    var b, rest := order[|order|-1], order[..|order|-1];
    assert Held(order, items, index, b);
    assert order == rest + [b];
    hide Indexed, Held;
    ErasesLast(order, rest, items, index, b);
    ErasedView(order, rest, items, b, items - {b}, index, index - {items[b].key});
  }

  lemma {:induction false} ErasedView<K(!new), V(!new)>(order: seq<nat>, rest: seq<nat>,
                                     items: map<nat, Entry<K, V>>, b: nat,
                                     items': map<nat, Entry<K, V>>, index: map<K, MapNode>, index': map<K, MapNode>)
    requires order == rest + [b] && items' == items - {b} && Indexed(order, items, index)
    requires Indexed(rest, items', index')
    ensures View(rest, items', index') == View(order, items, index)[..|rest|]
  {
    forall i | 0 <= i < |rest| ensures rest[i] in items' && items'[rest[i]] == items[order[i]] {
      assert Held(rest, items', index', rest[i]);
    }
    hide Indexed;
  }

  lemma NoTwiceLast(s: seq<nat>, b: nat)
    requires NoTwice(s + [b])
    ensures NoTwice(s) && b !in s
  {
    var t := s + [b];
    assert t[|s|] == b;
    forall i | 0 <= i < |s| ensures s[i] != b { assert t[i] == s[i]; }
    forall i, j | 0 <= i < j < |s| ensures s[i] != s[j] { assert t[i] == s[i] && t[j] == s[j]; }
  }

  lemma OneLess<T(!new), U(!new)>(m: map<T, U>, t: T)
    requires t in m
    ensures |m - {t}| == |m| - 1
  {
    assert (m - {t}).Keys == m.Keys - {t};
    assert |(m - {t}).Keys| == |m - {t}|;
  }

  lemma {:induction false} ErasesLast<K(!new), V(!new)>(order: seq<nat>, rest: seq<nat>, items: map<nat, Entry<K, V>>,
                                                        index: map<K, MapNode>, b: nat)
    requires Indexed(order, items, index) && order == rest + [b] && b in items
    ensures Indexed(rest, items - {b}, index - {items[b].key})
  {
    var items', index' := items - {b}, index - {items[b].key};
    hide NoTwice;
    NoTwiceLast(rest, b);
    OneLess(items, b);
    assert Held(order, items, index, b);
    OneLess(index, items[b].key);
    assert forall c :: c in order <==> c in rest || c == b;
    forall c | c in items' || c in rest ensures Held(rest, items', index', c) {
      assert Held(order, items, index, c) && Held(order, items, index, b);
    }
    forall l | l in index' ensures Leads(rest, items', index', l) { assert Leads(order, items, index, l); }
  }

  /** A new list node at the front and a new map node leading to it. */
  lemma {:induction false} Inserts<K(!new), V(!new)>(order: seq<nat>, items: map<nat, Entry<K, V>>,
                                                     index: map<K, MapNode>, b: nat, m: nat, e: Entry<K, V>)
    requires Indexed(order, items, index) && b !in items && e.key !in index
    ensures var order', items', index' := [b] + order, items[b := e], index[e.key := MapNode(m, b)];
            && Indexed(order', items', index')
            && View(order', items', index') == [e] + View(order, items, index)
  {
    hide Indexed, Contents;
    InsertsNode(order, items, index, b, m, e);
    NodesAreItems([b] + order, items[b := e], index[e.key := MapNode(m, b)]);
    InsertedView(order, items, index, b, e);
  }

  lemma NodesAreItems<K(!new), V(!new)>(order: seq<nat>, items: map<nat, Entry<K, V>>, index: map<K, MapNode>)
    requires Indexed(order, items, index)
    ensures forall i :: 0 <= i < |order| ==> order[i] in items
  {
    forall i | 0 <= i < |order| ensures order[i] in items { assert Held(order, items, index, order[i]); }
  }

  lemma {:induction false} InsertsNode<K(!new), V(!new)>(order: seq<nat>, items: map<nat, Entry<K, V>>,
                                                         index: map<K, MapNode>, b: nat, m: nat, e: Entry<K, V>)
    requires Indexed(order, items, index) && b !in items && e.key !in index
    ensures Indexed([b] + order, items[b := e], index[e.key := MapNode(m, b)])
  {
    var order', items', index' := [b] + order, items[b := e], index[e.key := MapNode(m, b)];
    NoTwiceFront(order, b);
    hide NoTwice;
    forall c | c in items' || c in order' ensures Held(order', items', index', c) {
      if c != b { assert Held(order, items, index, c); }
    }
    forall l | l in index' ensures Leads(order', items', index', l) {
      if l != e.key { assert Leads(order, items, index, l); }
    }
  }

  lemma {:induction false} InsertedView<K(!new), V(!new)>(order: seq<nat>, items: map<nat, Entry<K, V>>,
                                                          index: map<K, MapNode>, b: nat, e: Entry<K, V>)
    requires Indexed(order, items, index) && b !in items
    requires forall i :: 0 <= i < |order| + 1 ==> ([b] + order)[i] in items[b := e]
    ensures Contents([b] + order, items[b := e]) == [e] + View(order, items, index)
  {
    hide Indexed;
    NodesAreItems(order, items, index);
  }

  lemma BlocksErase<K(!new)>(index: map<K, MapNode>, live: set<nat>, k: K)
    requires Blocks(index, live) && k in index
    ensures index[k].block in live && Blocks(index - {k}, live - {index[k].block})
  {
    assert (index - {k}).Keys == index.Keys - {k};
  }

  lemma BlocksAdd<K(!new)>(index: map<K, MapNode>, live: set<nat>, k: K, m: MapNode)
    requires Blocks(index, live) && k !in index && m.block !in live
    ensures Blocks(index[k := m], live + {m.block})
  {}

  // ------------------------------------------------------------------------- the cache

  class LruCache<K(!new, ==), V(!new)> {
    const capacity: nat
    const nodes: Pool
    const mapNodes: Pool
    var order: seq<nat>
    var items: map<nat, Entry<K, V>>
    var index: map<K, MapNode>
    ghost var mapLive: set<nat>

    /** List and map hold the same keys, and each shares out its pool with the free blocks. */
    ghost predicate Valid()
      reads this, nodes, mapNodes
    {
      && capacity >= 1 && nodes != mapNodes
      && nodes.Valid() && mapNodes.Valid() && |nodes.next| == capacity && |mapNodes.next| == capacity
      && Indexed(order, items, index) && Blocks(index, mapLive)
      && Shares(items.Keys, nodes.free, capacity) && Shares(mapLive, mapNodes.free, capacity)
    }

    /** The cached entries, most recently used first. */
    ghost function Model(): seq<Entry<K, V>>
      reads this, nodes, mapNodes
      requires Valid()
    {
      View(order, items, index)
    }

    constructor (capacity: nat)
      requires capacity >= 1
      ensures Valid() && this.capacity == capacity && Model() == [] && fresh(nodes) && fresh(mapNodes)
    {
      this.capacity := capacity;
      nodes := new Pool(capacity);
      mapNodes := new Pool(capacity);
      order, items, index, mapLive := [], map[], map[], {};
      new;
      AllFree(nodes.next, nodes.head, nodes.free);
      AllFree(mapNodes.next, mapNodes.head, mapNodes.free);
    }

    method Get(key: K) returns (r: Option<V>)
      requires Valid()
      modifies this
      ensures Valid() && nodes.free == old(nodes.free) && mapNodes.free == old(mapNodes.free)
      ensures r == Answer(old(Model()), key)
      ensures Model() == Step(old(Model()), Call.Get(key), capacity)
    {
      hide Indexed, Shares, Blocks, Chain;
      FindsNode(order, items, index, key);
      if key !in index { return None; }
      var node := index[key].node;
      ghost var i := Find(Model(), key);
      NodeHolds(order, items, index, i);
      Splices(order, items, index, i, items[node]);
      assert items[node := items[node]] == items;
      order := [node] + Without(order, node);
      r := Some(items[node].value);
    }

    /** The nodes come from the pools and never run out. */
    method Put(key: K, value: V)
      requires Valid()
      modifies this, nodes, mapNodes
      ensures Valid()
      ensures Model() == Step(old(Model()), Call.Put(key, value), capacity)
    {
      hide Indexed, Shares, Blocks, Chain;
      FindsNode(order, items, index, key);
      if key in index {
        var node := index[key].node;
        ghost var i := Find(Model(), key);
        NodeHolds(order, items, index, i);
        Splices(order, items, index, i, Entry(key, value));
        KeysStay(items, node, Entry(key, value));
        items := items[node := Entry(key, value)];
        order := [node] + Without(order, node);
        return;
      }
      SharesCount(items.Keys, nodes.free, capacity);
      ItemCount(order, items, index);
      if |order| >= capacity { EvictLast(); }
      InsertFront(key, value);
    }

    method EvictLast()
      requires Valid() && order != []
      modifies this, nodes, mapNodes
      ensures Valid() && |order| == old(|order|) - 1
      ensures Model() == old(Model())[..|order|]
      ensures forall k :: k in index ==> k in old(index)
    {
      hide Indexed, Shares, Blocks, Chain;
      var last := order[|order|-1];
      NodeHolds(order, items, index, |order| - 1);
      Evicts(order, items, index);
      var key := items[last].key;
      var block := index[key].block;
      BlocksErase(index, mapLive, key);
      GivesBlock(mapLive, mapNodes.free, capacity, block);
      mapNodes.Deallocate(block);
      index := index - {key};
      mapLive := mapLive - {block};
      GivesBlock(items.Keys, nodes.free, capacity, last);
      nodes.Deallocate(last);
      assert (items - {last}).Keys == items.Keys - {last};
      items := items - {last};
      order := order[..|order|-1];
    }

    method InsertFront(key: K, value: V)
      requires Valid() && |order| < capacity && key !in index
      modifies this, nodes, mapNodes
      ensures Valid() && Model() == [Entry(key, value)] + old(Model())
    {
      hide Indexed, Shares, Blocks, Chain;
      ItemCount(order, items, index);
      SharesCount(items.Keys, nodes.free, capacity);
      SharesCount(mapLive, mapNodes.free, capacity);
      BlocksCount(index, mapLive);
      TakesBlock(items.Keys, nodes.free, capacity);
      TakesBlock(mapLive, mapNodes.free, capacity);
      var node := nodes.Allocate();
      var block := mapNodes.Allocate();
      Inserts(order, items, index, node.value, block.value, Entry(key, value));
      BlocksAdd(index, mapLive, key, MapNode(block.value, node.value));
      assert items[node.value := Entry(key, value)].Keys == items.Keys + {node.value};
      order := [node.value] + order;
      items := items[node.value := Entry(key, value)];
      index := index[key := MapNode(block.value, node.value)];
      mapLive := mapLive + {block.value};
    }
  }

  lemma AllFree(next: seq<int>, head: int, free: seq<nat>)
    requires Chain(next, head, free) && |free| == |next|
    ensures Shares({}, free, |next|)
  {
    forall b | b in free ensures b < |next| {
      var i :| 0 <= i < |free| && free[i] == b;
      assert Linked(next, free, i);
    }
  }

  lemma NodeHolds<K(!new), V(!new)>(order: seq<nat>, items: map<nat, Entry<K, V>>, index: map<K, MapNode>, i: nat)
    requires Indexed(order, items, index) && i < |order|
    ensures order[i] in items && View(order, items, index)[i] == items[order[i]]
    ensures items[order[i]].key in index && index[items[order[i]].key].node == order[i]
  {
    assert Held(order, items, index, order[i]);
  }

  lemma KeysStay<K, V>(items: map<nat, Entry<K, V>>, b: nat, e: Entry<K, V>)
    requires b in items
    ensures items[b := e].Keys == items.Keys
  {}

  lemma SharesCount(live: set<nat>, free: seq<nat>, n: nat)
    requires Shares(live, free, n)
    ensures |live| + |free| == n
  {}

  lemma ItemCount<K(!new), V(!new)>(order: seq<nat>, items: map<nat, Entry<K, V>>, index: map<K, MapNode>)
    requires Indexed(order, items, index)
    ensures |items.Keys| == |order| == |index|
  {
    assert |items.Keys| == |items|;
  }

  lemma BlocksCount<K(!new)>(index: map<K, MapNode>, live: set<nat>)
    requires Blocks(index, live)
    ensures |live| == |index|
  {}

  // --------------------------------------------------------------------------- whole runs

  /** What call `i` must answer; a put answers nothing. */
  ghost function Expected<K(!new), V(!new)>(calls: seq<Call<K, V>>, i: nat, capacity: nat): Option<V>
    requires i < |calls|
  {
    if calls[i].Get? && calls[i].key in Kept(calls[..i], capacity) then LastPut(calls[..i], calls[i].key) else None
  }

  /** Any run from a new cache: the entries are the most recently touched keys with their
      last put values, and every lookup answers accordingly. */
  method Replay<K(!new, ==), V(!new)>(calls: seq<Call<K, V>>, capacity: nat)
    returns (cache: LruCache<K, V>, out: seq<Option<V>>)
    requires capacity >= 1
    ensures cache.Valid() && cache.capacity == capacity
    ensures IsRecent(cache.Model(), calls, capacity)
    ensures |out| == |calls| && forall i :: 0 <= i < |calls| ==> out[i] == Expected(calls, i, capacity)
  {
    hide Indexed, Shares, Blocks, Chain, Kept, LastPut, Step, Answer, IsRecent;
    cache := new LruCache(capacity);
    out := [];
    for i := 0 to |calls|
      invariant fresh(cache) && fresh(cache.nodes) && fresh(cache.mapNodes)
      invariant cache.Valid() && cache.capacity == capacity && cache.Model() == After(calls[..i], capacity)
      invariant |out| == i && forall j :: 0 <= j < i ==> out[j] == Expected(calls, j, capacity)
    {
      assert calls[..i+1][..i] == calls[..i];
      match calls[i]
      case Get(key) =>
        AnswerIsLastPut(calls[..i], key, capacity);
        var r := cache.Get(key);
        out := out + [r];
      case Put(key, value) =>
        cache.Put(key, value);
        out := out + [None];
    }
    assert calls[..|calls|] == calls;
    AfterIsRecent(calls, capacity);
  }
}
