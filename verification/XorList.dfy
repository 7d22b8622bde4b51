/** The doubly linked list that keeps one word per node: both neighbours' addresses xored. */
module XorLists {

  /** A 64-bit address as an integer. */
  datatype Address = Address(bits: bv64)

  const NULL: Address := Address(0)

  datatype Node = Node(value: int, xored: Address)

  function Xor(a: Address, b: Address): Address { Address(a.bits ^ b.bits) }

  lemma BitsUndo(x: bv64, y: bv64)
    ensures (x ^ y) ^ x == y
  {}

  lemma BitsNull(x: bv64)
    ensures x ^ 0 == x
  {}

  lemma XorUndoes(a: Address, b: Address)
    ensures Xor(Xor(a, b), a) == b
  {
    BitsUndo(a.bits, b.bits);
  }

  lemma XorNull(a: Address)
    ensures Xor(a, NULL) == a
  {
    BitsNull(a.bits);
  }

  // ------------------------------------------------------------------- the represented list

  /** The address before or after the nodes is null. */
  function At(addrs: seq<Address>, i: int): Address { if 0 <= i < |addrs| then addrs[i] else NULL }

  /** Node `i` holds its neighbours xored. */
  ghost predicate Links(mem: map<Address, Node>, addrs: seq<Address>, i: int) {
    At(addrs, i) in mem && mem[At(addrs, i)].xored == Xor(At(addrs, i - 1), At(addrs, i + 1))
  }

  /** A walk along `path` is at node `k`, coming from the one before. */
  ghost predicate Stands(path: seq<Address>, k: nat, node: Address, prev: Address) {
    k < |path| && node == path[k] && prev == At(path, k - 1)
  }

  ghost predicate Chained(mem: map<Address, Node>, addrs: seq<Address>) {
    && (forall i :: 0 <= i < |addrs| ==> addrs[i] != NULL && addrs[i] in mem)
    && (forall i, j :: 0 <= i < j < |addrs| ==> addrs[i] != addrs[j])
    && (forall i {:trigger Links(mem, addrs, i)} :: 0 <= i < |addrs| ==> Links(mem, addrs, i))
  }

  function Values(mem: map<Address, Node>, addrs: seq<Address>): (vs: seq<int>)
    requires forall i :: 0 <= i < |addrs| ==> addrs[i] in mem
    ensures |vs| == |addrs|
    ensures forall i {:trigger vs[i]} {:trigger addrs[i]} :: 0 <= i < |addrs| ==> vs[i] == mem[addrs[i]].value
  {
    seq(|addrs|, i requires 0 <= i < |addrs| => mem[addrs[i]].value)
  }

  function Reversed<T>(s: seq<T>): (r: seq<T>)
    ensures |r| == |s| && forall i {:trigger r[i]} :: 0 <= i < |s| ==> r[i] == s[|s| - 1 - i]
  {
    seq(|s|, i requires 0 <= i < |s| => s[|s| - 1 - i])
  }

  /** The same chain is a chain from the other end. */
  lemma {:induction false} ChainedBackwards(mem: map<Address, Node>, addrs: seq<Address>)
    requires Chained(mem, addrs)
    ensures Chained(mem, Reversed(addrs))
  {
    hide Xor;
    var r := Reversed(addrs);
    forall i | 0 <= i < |r| ensures Links(mem, r, i) {
      var j := |addrs| - 1 - i;
      assert Links(mem, addrs, j);
      assert At(r, i) == At(addrs, j) && At(r, i - 1) == At(addrs, j + 1) && At(r, i + 1) == At(addrs, j - 1);
      XorSwaps(At(addrs, j - 1), At(addrs, j + 1));
    }
  }

  lemma XorSwaps(a: Address, b: Address)
    ensures Xor(a, b) == Xor(b, a)
  {}

  /** Linking one more node behind the end. */
  lemma {:induction false} ChainedGrows(mem: map<Address, Node>, addrs: seq<Address>, a: Address, value: int)
    requires Chained(mem, addrs) && addrs != [] && a != NULL && a !in mem
    ensures var end := addrs[|addrs|-1];
            var mem' := mem[a := Node(value, end)][end := Node(mem[end].value, Xor(mem[end].xored, a))];
            Chained(mem', addrs + [a]) && Values(mem', addrs + [a]) == Values(mem, addrs) + [value]
  {
    hide Xor;
    var n := |addrs|;
    var end := addrs[n-1];
    var mem' := mem[a := Node(value, end)][end := Node(mem[end].value, Xor(mem[end].xored, a))];
    var more := addrs + [a];
    forall i | 0 <= i < |more| ensures Links(mem', more, i) {
      if i < n { assert Links(mem, addrs, i); }
      EndLinks(At(addrs, n - 2), a, end);
      assert At(more, i - 1) == if i == n then end else At(addrs, i - 1);
    }
  }

  lemma {:induction false} EndLinks(before: Address, a: Address, end: Address)
    ensures Xor(Xor(before, NULL), a) == Xor(before, a) && Xor(end, NULL) == end
  {
    hide Xor;
    XorNull(before);
    XorNull(end);
  }

  // --------------------------------------------------------------------------- the list

  class LinkList {
    var begin: Address
    var end: Address
    var mem: map<Address, Node>
    ghost var addrs: seq<Address>

    ghost predicate Valid()
      reads this
    {
      && Chained(mem, addrs)
      && begin == At(addrs, 0) && end == At(addrs, |addrs| - 1)
    }

    ghost function Contents(): seq<int>
      reads this
      requires Valid()
    {
      Values(mem, addrs)
    }

    constructor (mem: map<Address, Node>)
      ensures Valid() && Contents() == [] && this.mem == mem
    {
      begin, end, this.mem, addrs := NULL, NULL, mem, [];
    }

    /** `address` is what the allocator hands out: not null and not in use. */
    method Append(value: int, address: Address)
      requires Valid() && address != NULL && address !in mem
      modifies this
      ensures Valid() && Contents() == old(Contents()) + [value] && addrs == old(addrs) + [address]
      ensures Xored(mem, addrs)
      ensures mem.Keys == old(mem.Keys) + {address}
      ensures forall a :: a in old(mem) && a !in addrs ==> mem[a] == old(mem[a])
    {
      hide Xored, Xor, Links;
      if end == NULL {
        EmptyChain(mem, addrs);
        assert begin == NULL;
        FirstLinks(mem, address, value);
        mem := mem[address := Node(value, NULL)];
        end := address;
        begin := end;
        addrs := [address];
      } else {
        ChainedGrows(mem, addrs, address, value);
        mem := mem[address := Node(value, end)];
        mem := mem[end := Node(mem[end].value, Xor(mem[end].xored, address))];
        end := address;
        addrs := addrs + [address];
      }
      ChainIsXored(mem, addrs);
    }

    /** The neighbour of `node` that is not `prev`, and `node` as the new previous one. */
    method NodeNext(node: Address, prev: Address) returns (next: Address, prev': Address)
      requires node in mem
      ensures prev' == node
      ensures forall path: seq<Address>, k: nat :: Chained(mem, path) && Stands(path, k, node, prev) ==>
        next == At(path, k + 1)
    {
      hide Chained, Xor;
      next := Xor(mem[node].xored, prev);
      prev' := node;
      forall path: seq<Address>, k: nat | Chained(mem, path) && Stands(path, k, node, prev)
        ensures next == At(path, k + 1)
      {
        PathStart(mem, path);
        StepAlong(mem, path, k);
      }
    }

    /** The walk of the two loops: from either end, it visits every node once and stops. */
    method Walk(start: Address, ghost path: seq<Address>) returns (out: seq<int>)
      requires Chained(mem, path) && start == At(path, 0)
      ensures out == Values(mem, path)
    {
      hide Xor, Chained;
      out := [];
      var iter, prev := start, NULL;
      ghost var k := 0;
      PathStart(mem, path);
      while iter != NULL
        invariant 0 <= k <= |path| && iter == At(path, k) && prev == At(path, k - 1)
        invariant out == Values(mem, path)[..k]
        decreases |path| - k
      {
        StepAlong(mem, path, k);
        assert Stands(path, k, iter, prev);
        out := out + [mem[iter].value];
        iter, prev := NodeNext(iter, prev);
        k := k + 1;
      }
      PathEnd(mem, path, k);
    }

    method Forward() returns (out: seq<int>)
      requires Valid()
      ensures out == Contents()
    {
      out := Walk(begin, addrs);
    }

    method Backward() returns (out: seq<int>)
      requires Valid()
      ensures out == Reversed(Contents())
    {
      ChainedBackwards(mem, addrs);
      out := Walk(end, Reversed(addrs));
    }
  }

  /** Each node holds the exclusive or of its neighbours' addresses, null beyond the ends. */
  ghost predicate Xored(mem: map<Address, Node>, addrs: seq<Address>) {
    forall i :: 0 <= i < |addrs| ==>
      addrs[i] in mem && mem[addrs[i]].xored.bits == At(addrs, i - 1).bits ^ At(addrs, i + 1).bits
  }

  lemma ChainIsXored(mem: map<Address, Node>, addrs: seq<Address>)
    requires Chained(mem, addrs)
    ensures Xored(mem, addrs)
  {
    forall i | 0 <= i < |addrs|
      ensures addrs[i] in mem && mem[addrs[i]].xored.bits == At(addrs, i - 1).bits ^ At(addrs, i + 1).bits
    {
      assert Links(mem, addrs, i);
    }
  }

  lemma EmptyChain(mem: map<Address, Node>, addrs: seq<Address>)
    requires Chained(mem, addrs) && At(addrs, |addrs| - 1) == NULL
    ensures addrs == []
  {}

  lemma {:induction false} FirstLinks(mem: map<Address, Node>, a: Address, value: int)
    requires a != NULL
    ensures Chained(mem[a := Node(value, NULL)], [a]) && Values(mem[a := Node(value, NULL)], [a]) == [value]
  {
    XorNull(NULL);
    hide Xor;
    assert Links(mem[a := Node(value, NULL)], [a], 0);
  }

  lemma PathStart(mem: map<Address, Node>, path: seq<Address>)
    requires Chained(mem, path)
    ensures forall i :: 0 <= i < |path| ==> path[i] in mem && path[i] != NULL
  {}

  lemma {:induction false} StepAlong(mem: map<Address, Node>, path: seq<Address>, k: nat)
    requires Chained(mem, path) && k <= |path| && At(path, k) != NULL
    ensures k < |path| && path[k] in mem && Xor(mem[path[k]].xored, At(path, k - 1)) == At(path, k + 1)
  {
    hide Xor;
    assert Links(mem, path, k);
    XorUndoes(At(path, k - 1), At(path, k + 1));
  }

  lemma PathEnd(mem: map<Address, Node>, path: seq<Address>, k: nat)
    requires Chained(mem, path) && k <= |path| && At(path, k) == NULL
    ensures k == |path|
  {}

  /** Any sequence of appends at fresh addresses, then both walks. */
  method Replay(values: seq<int>, addresses: seq<Address>) returns (forward: seq<int>, backward: seq<int>)
    requires |addresses| == |values|
    requires forall i :: 0 <= i < |addresses| ==> addresses[i] != NULL
    requires forall i, j :: 0 <= i < j < |addresses| ==> addresses[i] != addresses[j]
    ensures forward == values && backward == Reversed(values)
  {
    hide Chained, Xor, Xored;
    var list := new LinkList(map[]);
    for i := 0 to |values|
      invariant fresh(list) && list.Valid() && list.Contents() == values[..i]
      invariant list.mem.Keys == set k | 0 <= k < i :: addresses[k]
    {
      list.Append(values[i], addresses[i]);
    }
    forward := list.Forward();
    backward := list.Backward();
  }
}
