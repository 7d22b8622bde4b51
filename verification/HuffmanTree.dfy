/** Weighted code trees and the greedy merge of the two lightest. */
module HuffmanTree {
  import opened Collections

  type Bits = seq<bool>

  datatype Tree = Leaf(ch: nat, weight: nat) | Node(left: Tree, right: Tree)

  function Weight(t: Tree): nat {
    match t
    case Leaf(_, w) => w
    case Node(l, r) => Weight(l) + Weight(r)
  }

  function Chars(t: Tree): set<nat> {
    match t
    case Leaf(c, _) => {c}
    case Node(l, r) => Chars(l) + Chars(r)
  }

  /** No character sits at two leaves. */
  predicate Distinct(t: Tree) {
    t.Leaf? || (Distinct(t.left) && Distinct(t.right) && Chars(t.left) !! Chars(t.right))
  }

  function Height(t: Tree): nat {
    if t.Leaf? then 0
    else 1 + if Height(t.left) >= Height(t.right) then Height(t.left) else Height(t.right)
  }

  /** The way from the root to a character: left is 0, right is 1. */
  function Path(t: Tree, c: nat): Bits {
    if t.Leaf? then []
    else if c in Chars(t.left) then [false] + Path(t.left, c)
    else [true] + Path(t.right, c)
  }

  /** Sum of the weights of the inner nodes. */
  function Cost(t: Tree): nat {
    if t.Leaf? then 0 else Weight(t) + Cost(t.left) + Cost(t.right)
  }

  // ------------------------------------------------------------ greedy merge

  type Forest = seq<Tree>

  /** Positions of the lightest tree and of the lightest of the others. */
  ghost predicate TwoLeast(f: Forest, i: nat, j: nat) {
    && i < |f| && j < |f| && i != j
    && Weight(f[i]) <= Weight(f[j])
    && forall k :: 0 <= k < |f| && k != i && k != j ==> Weight(f[j]) <= Weight(f[k])
  }

  /** RemoveAt positions `i` and `j` and append `x`. */
  function Replace2<T>(s: seq<T>, i: nat, j: nat, x: T): (r: seq<T>)
    requires i < |s| && j < |s| && i != j
    ensures |r| == |s| - 1
  {
    (if i < j then RemoveAt(RemoveAt(s, j), i) else RemoveAt(RemoveAt(s, i), j)) + [x]
  }

  ghost function Merged(f: Forest, i: nat, j: nat): Forest
    requires i < |f| && j < |f| && i != j
  {
    Replace2(f, i, j, Node(f[i], f[j]))
  }

  /** `t` is what some run of two-lightest merges makes of the forest `f`. */
  ghost predicate Reduces(f: Forest, t: Tree)
    decreases |f|
  {
    f == [t] || exists i: nat, j: nat :: TwoLeast(f, i, j) && Reduces(Merged(f, i, j), t)
  }

  /** The first of the lightest trees, and the first of the lightest of the others. */
  ghost predicate FirstTwo(f: Forest, i: nat, j: nat) {
    && TwoLeast(f, i, j)
    && (forall k :: 0 <= k < i ==> Weight(f[i]) < Weight(f[k]))
    && (forall k :: 0 <= k < j && k != i ==> Weight(f[j]) < Weight(f[k]))
  }

  /** `t` is what the merges make of the forest `f` when ties go to the earlier tree. */
  ghost predicate Builds(f: Forest, t: Tree)
    decreases |f|
  {
    f == [t] || exists i: nat, j: nat :: FirstTwo(f, i, j) && Builds(Merged(f, i, j), t)
  }

  lemma {:induction false} BuildsReduces(f: Forest, t: Tree)
    requires Builds(f, t)
    ensures Reduces(f, t)
    decreases |f|
  {
    if f != [t] {
      var i: nat, j: nat :| FirstTwo(f, i, j) && Builds(Merged(f, i, j), t);
      BuildsReduces(Merged(f, i, j), t);
    }
  }

  /** The two are the only ones. */
  lemma FirstTwoUnique(f: Forest, i: nat, j: nat, i': nat, j': nat)
    requires FirstTwo(f, i, j) && FirstTwo(f, i', j')
    ensures i == i' && j == j'
  {}

  /** Ties settled this way, a forest builds one tree only. */
  lemma {:induction false} BuildsUnique(f: Forest, t: Tree, u: Tree)
    requires Builds(f, t) && Builds(f, u)
    ensures t == u
    decreases |f|
  {
    if f != [t] && f != [u] {
      var i: nat, j: nat :| FirstTwo(f, i, j) && Builds(Merged(f, i, j), t);
      var i': nat, j': nat :| FirstTwo(f, i', j') && Builds(Merged(f, i', j'), u);
      FirstTwoUnique(f, i, j, i', j');
      BuildsUnique(Merged(f, i, j), t, u);
    }
  }

  /** At every node the left subtree is no heavier than the right one. */
  predicate Leaning(t: Tree) {
    t.Leaf? || (Weight(t.left) <= Weight(t.right) && Leaning(t.left) && Leaning(t.right))
  }

  lemma {:induction false} ReducesLeaning(f: Forest, t: Tree)
    requires Reduces(f, t) && forall k :: 0 <= k < |f| ==> Leaning(f[k])
    ensures Leaning(t)
    decreases |f|
  {
    if f == [t] {
      assert f[0] == t;
    } else {
      var i: nat, j: nat :| TwoLeast(f, i, j) && Reduces(Merged(f, i, j), t);
      var g, x := Merged(f, i, j), Node(f[i], f[j]);
      forall k | 0 <= k < |g| ensures Leaning(g[k]) { Replace2At(f, i, j, x, k); }
      ReducesLeaning(g, t);
    }
  }

  // -------------------------------------------------------------- code books

  type CodeBook = map<nat, Bits>

  /** Weighted length of the leaves of `t` under the code `c`. */
  function CodedLength(t: Tree, c: CodeBook): nat
    requires Chars(t) <= c.Keys
  {
    match t
    case Leaf(ch, w) => w * |c[ch]|
    case Node(l, r) => CodedLength(l, c) + CodedLength(r, c)
  }

  ghost predicate Covered(f: Forest, c: CodeBook) {
    forall k :: 0 <= k < |f| ==> Chars(f[k]) <= c.Keys
  }

  ghost function ForestLength(f: Forest, c: CodeBook): nat
    requires Covered(f, c)
  {
    if f == [] then 0 else CodedLength(f[0], c) + ForestLength(f[1..], c)
  }

  function CodeOf(t: Tree): CodeBook {
    map c | c in Chars(t) :: Path(t, c)
  }

  lemma {:induction false} ShiftedLength(t: Tree, c: CodeBook, d: CodeBook)
    requires Chars(t) <= c.Keys && Chars(t) <= d.Keys
    requires forall ch :: ch in Chars(t) ==> |d[ch]| == |c[ch]| + 1
    ensures CodedLength(t, d) == CodedLength(t, c) + Weight(t)
  {
    match t
    case Leaf(ch, w) => assert w * |d[ch]| == w * |c[ch]| + w;
    case Node(l, r) => ShiftedLength(l, c, d); ShiftedLength(r, c, d);
  }

  /** A tree spends exactly its cost on its own leaves. */
  lemma {:induction false} TreeCost(t: Tree)
    requires Distinct(t)
    ensures CodedLength(t, CodeOf(t)) == Cost(t)
  {
    match t
    case Leaf(ch, w) =>
    case Node(l, r) =>
      TreeCost(l);
      TreeCost(r);
      ShiftedLength(l, CodeOf(l), CodeOf(t));
      ShiftedLength(r, CodeOf(r), CodeOf(t));
  }

  lemma PrefixTail(a: Bits, b: Bits)
    requires a != [] && b != []
    ensures a <= b <==> a[0] == b[0] && a[1..] <= b[1..]
  {
    if a[0] == b[0] && a[1..] <= b[1..] {
      assert a == [a[0]] + a[1..] && b == [b[0]] + b[1..];
    }
  }

  lemma {:induction false} DistinctPathsPrefixFree(t: Tree, a: nat, b: nat)
    requires Distinct(t) && a in Chars(t) && b in Chars(t) && a != b
    ensures !(Path(t, a) <= Path(t, b))
  {
    var l, r := t.left, t.right;
    if a in Chars(l) && b in Chars(l) {
      DistinctPathsPrefixFree(l, a, b);
      PrefixTail(Path(t, a), Path(t, b));
    } else if a !in Chars(l) && b !in Chars(l) {
      DistinctPathsPrefixFree(r, a, b);
      PrefixTail(Path(t, a), Path(t, b));
    } else {
      assert Path(t, a)[0] != Path(t, b)[0];
    }
  }

  // ------------------------------------------------------- merges keep leaves

  ghost predicate Apart(f: Forest) {
    && (forall k :: 0 <= k < |f| ==> Distinct(f[k]))
    && (forall k, m :: 0 <= k < m < |f| ==> Chars(f[k]) !! Chars(f[m]))
  }

  /** Where the entries of `Replace2` come from. */
  lemma Replace2At<T>(s: seq<T>, i: nat, j: nat, x: T, k: nat)
    requires i < |s| && j < |s| && i != j && k < |s| - 1
    ensures var r := Replace2(s, i, j, x);
      if k == |s| - 2 then r[k] == x
      else var lo, hi := if i < j then i else j, if i < j then j else i;
           r[k] == s[if k < lo then k else if k + 1 < hi then k + 1 else k + 2]
  {}

  lemma MergedApart(f: Forest, i: nat, j: nat)
    requires Apart(f) && i < |f| && j < |f| && i != j
    ensures Apart(Merged(f, i, j))
  {
    var g := Merged(f, i, j);
    var x := Node(f[i], f[j]);
    assert Chars(f[i]) !! Chars(f[j]) by { if i < j {} else {} }
    assert Distinct(x);
    forall k | 0 <= k < |g| ensures Distinct(g[k]) { Replace2At(f, i, j, x, k); }
    forall k, m | 0 <= k < m < |g| ensures Chars(g[k]) !! Chars(g[m]) {
      Replace2At(f, i, j, x, k);
      Replace2At(f, i, j, x, m);
    }
  }

  lemma {:induction false} ForestLengthDrop(f: Forest, i: nat, c: CodeBook)
    requires Covered(f, c) && i < |f|
    ensures Covered(RemoveAt(f, i), c)
    ensures ForestLength(f, c) == ForestLength(RemoveAt(f, i), c) + CodedLength(f[i], c)
  {
    if i == 0 {
      assert RemoveAt(f, 0) == f[1..];
    } else {
      ForestLengthDrop(f[1..], i - 1, c);
      assert RemoveAt(f, i) == [f[0]] + RemoveAt(f[1..], i - 1);
    }
  }

  lemma {:induction false} ForestLengthSnoc(f: Forest, x: Tree, c: CodeBook)
    requires Covered(f, c) && Chars(x) <= c.Keys
    ensures Covered(f + [x], c) && ForestLength(f + [x], c) == ForestLength(f, c) + CodedLength(x, c)
  {
    if f == [] { assert f + [x] == [x]; }
    else { ForestLengthSnoc(f[1..], x, c); assert (f + [x])[1..] == f[1..] + [x]; }
  }

  lemma MergedLength(f: Forest, i: nat, j: nat, c: CodeBook)
    requires Covered(f, c) && i < |f| && j < |f| && i != j
    ensures Covered(Merged(f, i, j), c) && ForestLength(Merged(f, i, j), c) == ForestLength(f, c)
  {
    var hi, lo := if i < j then j else i, if i < j then i else j;
    var x := Node(f[i], f[j]);
    ForestLengthDrop(f, hi, c);
    ForestLengthDrop(RemoveAt(f, hi), lo, c);
    assert RemoveAt(f, hi)[lo] == f[lo];
    ForestLengthSnoc(RemoveAt(RemoveAt(f, hi), lo), x, c);
    assert Merged(f, i, j) == RemoveAt(RemoveAt(f, hi), lo) + [x];
  }

  /** Merging keeps the leaves: same coded length for every code, and still no repeated character. */
  lemma {:induction false} ReducesKeepsLeaves(f: Forest, t: Tree, c: CodeBook)
    requires Reduces(f, t) && Apart(f) && Covered(f, c)
    ensures Distinct(t) && Chars(t) <= c.Keys && CodedLength(t, c) == ForestLength(f, c)
    decreases |f|
  {
    if f == [t] {
      assert f[0] == t;
      assert ForestLength(f, c) == CodedLength(t, c) + ForestLength(f[1..], c);
    } else {
      var i: nat, j: nat :| TwoLeast(f, i, j) && Reduces(Merged(f, i, j), t);
      MergedApart(f, i, j);
      MergedLength(f, i, j, c);
      ReducesKeepsLeaves(Merged(f, i, j), t, c);
    }
  }

  ghost function ForestChars(f: Forest): set<nat> {
    set k, c | 0 <= k < |f| && c in Chars(f[k]) :: c
  }

  lemma {:induction false} MergedFrom(f: Forest, i: nat, j: nat, k: nat) returns (m: nat)
    requires i < |f| && j < |f| && i != j && k < |f| - 2
    ensures m < |f| && Merged(f, i, j)[k] == f[m]
  {
    hide Replace2;
    Replace2At(f, i, j, Node(f[i], f[j]), k);
    var hi, lo := if i < j then j else i, if i < j then i else j;
    m := if k < lo then k else if k + 1 < hi then k + 1 else k + 2;
  }

  lemma {:induction false} MergedTo(f: Forest, i: nat, j: nat, k: nat) returns (m: nat)
    requires i < |f| && j < |f| && i != j && k < |f| && k != i && k != j
    ensures m < |f| - 2 && Merged(f, i, j)[m] == f[k]
  {
    hide Replace2;
    var hi, lo := if i < j then j else i, if i < j then i else j;
    m := if k < lo then k else if k < hi then k - 1 else k - 2;
    Replace2At(f, i, j, Node(f[i], f[j]), m);
  }

  lemma {:induction false} MergedLast(f: Forest, i: nat, j: nat)
    requires i < |f| && j < |f| && i != j
    ensures |Merged(f, i, j)| == |f| - 1 && Merged(f, i, j)[|f|-2] == Node(f[i], f[j])
  {
    hide Replace2;
    Replace2At(f, i, j, Node(f[i], f[j]), |f| - 2);
  }

  lemma {:induction false} MergedChars(f: Forest, i: nat, j: nat)
    requires i < |f| && j < |f| && i != j
    ensures ForestChars(Merged(f, i, j)) == ForestChars(f)
  {
    MergedLast(f, i, j);
    var g := Merged(f, i, j);
    hide Merged;
    forall c | c in ForestChars(g) ensures c in ForestChars(f) {
      var k :| 0 <= k < |g| && c in Chars(g[k]);
      if k < |f| - 2 {
        var m := MergedFrom(f, i, j, k);
        assert c in Chars(f[m]);
      } else {
        assert c in Chars(f[i]) || c in Chars(f[j]);
      }
    }
    forall c | c in ForestChars(f) ensures c in ForestChars(g) {
      var k :| 0 <= k < |f| && c in Chars(f[k]);
      if k == i || k == j {
        assert c in Chars(g[|f|-2]);
      } else {
        var m := MergedTo(f, i, j, k);
        assert c in Chars(g[m]);
      }
    }
  }

  lemma {:induction false} ReducesChars(f: Forest, t: Tree)
    requires Reduces(f, t)
    ensures Chars(t) == ForestChars(f)
    decreases |f|
  {
    if f == [t] {
      assert forall c :: c in Chars(t) ==> c in Chars(f[0]);
    } else {
      var i: nat, j: nat :| TwoLeast(f, i, j) && Reduces(Merged(f, i, j), t);
      MergedChars(f, i, j);
      ReducesChars(Merged(f, i, j), t);
    }
  }

  // ---------------------------------------------------------- height and weight

  function Fib(n: nat): nat {
    if n < 2 then n else Fib(n - 1) + Fib(n - 2)
  }

  /** Every subtree of height `h` weighs at least Fib(h + 2). */
  ghost predicate Heavy(t: Tree) {
    Weight(t) >= Fib(Height(t) + 2) && (t.Node? ==> Heavy(t.left) && Heavy(t.right))
  }

  /** Every tree is heavy and none is lighter than a child of another. */
  ghost predicate Balanced(f: Forest) {
    && (forall k :: 0 <= k < |f| ==> Heavy(f[k]))
    && (forall k, m :: 0 <= k < |f| && 0 <= m < |f| && f[m].Node? ==>
          Weight(f[k]) >= Weight(f[m].left) && Weight(f[k]) >= Weight(f[m].right))
  }

  lemma FibStep(n: nat)
    ensures Fib(n + 2) == Fib(n + 1) + Fib(n)
  {}

  lemma FibSmall()
    ensures Fib(1) == 1 && Fib(2) == 1
  {}

  /** The taller tree and a sibling no lighter than its children weigh the next Fibonacci number. */
  lemma {:induction false} TallPair(a: Tree, b: Tree)
    requires Heavy(a) && Heavy(b) && Height(b) <= Height(a)
    requires a.Node? ==> Weight(b) >= Weight(a.left) && Weight(b) >= Weight(a.right)
    ensures Weight(a) + Weight(b) >= Fib(Height(a) + 3)
  {
    hide Fib;
    var h := Height(a);
    FibStep(h + 1);
    if a.Leaf? {
      FibSmall();
    } else {
      var child := if Height(a.left) >= Height(a.right) then a.left else a.right;
      assert Heavy(child) && Height(child) == h - 1;
    }
  }

  lemma {:induction false} MergedHeavy(a: Tree, b: Tree)
    requires Heavy(a) && Heavy(b)
    requires a.Node? ==> Weight(b) >= Weight(a.left) && Weight(b) >= Weight(a.right)
    requires b.Node? ==> Weight(a) >= Weight(b.left) && Weight(a) >= Weight(b.right)
    ensures Heavy(Node(a, b))
  {
    hide Fib;
    if Height(a) >= Height(b) { TallPair(a, b); } else { TallPair(b, a); }
    HeavyNode(a, b, 1 + if Height(a) >= Height(b) then Height(a) else Height(b));
  }

  lemma HeavyNode(a: Tree, b: Tree, h: nat)
    requires Heavy(a) && Heavy(b) && h == Height(Node(a, b)) && Weight(a) + Weight(b) >= Fib(h + 2)
    ensures Heavy(Node(a, b))
  {}

  lemma MergedBalanced(f: Forest, i: nat, j: nat)
    requires Balanced(f) && TwoLeast(f, i, j)
    ensures Balanced(Merged(f, i, j))
  {
    var g, x := Merged(f, i, j), Node(f[i], f[j]);
    MergedHeavy(f[i], f[j]);
    forall k | 0 <= k < |g| ensures Heavy(g[k]) && Weight(g[k]) >= Weight(f[j]) {
      Replace2At(f, i, j, x, k);
    }
    forall k, m | 0 <= k < |g| && 0 <= m < |g| && g[m].Node?
      ensures Weight(g[k]) >= Weight(g[m].left) && Weight(g[k]) >= Weight(g[m].right)
    {
      Replace2At(f, i, j, x, k);
      Replace2At(f, i, j, x, m);
    }
  }

  lemma {:induction false} ReducesHeavy(f: Forest, t: Tree)
    requires Reduces(f, t) && Balanced(f)
    ensures Heavy(t)
    decreases |f|
  {
    if f == [t] { assert f[0] == t; }
    else {
      var i: nat, j: nat :| TwoLeast(f, i, j) && Reduces(Merged(f, i, j), t);
      MergedBalanced(f, i, j);
      ReducesHeavy(Merged(f, i, j), t);
    }
  }

  lemma {:induction false} FibMonotone(a: nat, b: nat)
    requires a <= b
    ensures Fib(a) <= Fib(b)
    decreases b
  {
    if a < b {
      if b >= 2 { FibMonotone(a, b - 1); }
    }
  }

  lemma FibAt16()
    ensures Fib(15) == 610 && Fib(16) == 987
  {
    assert Fib(2) == 1 && Fib(3) == 2 && Fib(4) == 3 && Fib(5) == 5 && Fib(6) == 8;
    assert Fib(7) == 13 && Fib(8) == 21 && Fib(9) == 34 && Fib(10) == 55 && Fib(11) == 89;
    assert Fib(12) == 144 && Fib(13) == 233 && Fib(14) == 377;
  }

  lemma FibAt30()
    ensures Fib(30) == 832040
  {
    FibAt16();
    assert Fib(17) == 1597 && Fib(18) == 2584 && Fib(19) == 4181 && Fib(20) == 6765 && Fib(21) == 10946;
    assert Fib(22) == 17711 && Fib(23) == 28657 && Fib(24) == 46368 && Fib(25) == 75025 && Fib(26) == 121393;
    assert Fib(27) == 196418 && Fib(28) == 317811 && Fib(29) == 514229;
  }

  /** A heavy tree lighter than Fib(30) has height at most 27. */
  lemma {:induction false} HeightBound(t: Tree)
    requires Heavy(t) && Weight(t) < 832040
    ensures Height(t) <= 27
  {
    hide Fib;
    if Height(t) > 27 {
      var h := Height(t) + 2;
      FibAt30();
      FibMonotone(30, h);
    }
  }

  lemma {:induction false} PathWithinHeight(t: Tree, c: nat)
    ensures |Path(t, c)| <= Height(t)
  {
    if t.Node? {
      PathWithinHeight(t.left, c);
      PathWithinHeight(t.right, c);
    }
  }
}
