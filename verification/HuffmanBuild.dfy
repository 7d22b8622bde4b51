/** Building the static code: character counts, the node table, the greedy merge and the breadth-first
    flattening into a sign-tagged array tree. */
module HuffmanBuild {
  import opened Collections
  import opened Bytes
  import opened HuffmanTree
  import opened HuffmanOptimal
  import opened HuffmanText

  datatype TempNode = TempNode(ch: Byte, freq: nat, left: int, right: int, active: bool)

  type Table = seq<TempNode>

  // ---------------------------------------------------------- the node table

  /** Leaves carry a character, inner nodes the mark 0 and two earlier nodes. */
  ghost predicate TableOk(ns: Table) {
    forall i :: 0 <= i < |ns| ==>
      if ns[i].ch != 0 then ns[i].left == -1 && ns[i].right == -1
      else 0 <= ns[i].left < i && 0 <= ns[i].right < i
  }

  ghost function TreeAt(ns: Table, i: nat): Tree
    requires TableOk(ns) && i < |ns|
    decreases i
  {
    if ns[i].ch != 0 then Leaf(ns[i].ch, ns[i].freq)
    else Node(TreeAt(ns, ns[i].left), TreeAt(ns, ns[i].right))
  }

  ghost predicate SameNode(a: TempNode, b: TempNode) { a.(active := b.active) == b }

  lemma {:induction false} TreeAtFrame(ns: Table, ns': Table, i: nat)
    requires TableOk(ns) && TableOk(ns') && i < |ns| <= |ns'|
    requires forall k :: 0 <= k < |ns| ==> SameNode(ns'[k], ns[k])
    ensures TreeAt(ns', i) == TreeAt(ns, i)
    decreases i
  {
    assert SameNode(ns'[i], ns[i]);
    if ns[i].ch == 0 {
      TreeAtFrame(ns, ns', ns[i].left);
      TreeAtFrame(ns, ns', ns[i].right);
    }
  }

  /** `act` lists the active nodes. */
  ghost predicate ActiveList(ns: Table, act: seq<nat>) {
    && (forall k :: 0 <= k < |act| ==> act[k] < |ns| && ns[act[k]].active)
    && (forall k, m :: 0 <= k < m < |act| ==> act[k] < act[m])
    && (forall i :: 0 <= i < |ns| && ns[i].active ==> i in act)
  }

  ghost predicate FreqOk(ns: Table)
    requires TableOk(ns)
  {
    forall i :: 0 <= i < |ns| ==> ns[i].freq == Weight(TreeAt(ns, i))
  }

  ghost function ForestOf(ns: Table, act: seq<nat>): (f: Forest)
    requires TableOk(ns) && forall k :: 0 <= k < |act| ==> act[k] < |ns|
    ensures |f| == |act| && forall k {:trigger f[k]} :: 0 <= k < |act| ==> f[k] == TreeAt(ns, act[k])
  {
    seq(|act|, k requires 0 <= k < |act| => TreeAt(ns, act[k]))
  }

  method CountCharacters(input: Text) returns (freq: seq<nat>)
    ensures |freq| == 256 && forall c :: 0 <= c < 256 ==> freq[c] == Count(input, c)
  {
    freq := seq(256, i => 0);
    for k := 0 to |input|
      invariant |freq| == 256 && forall c :: 0 <= c < 256 ==> freq[c] == Count(input[..k], c)
    {
      CountSnoc(input[..k], input[k]);
      assert input[..k+1] == input[..k] + [input[k]];
      freq := freq[input[k] := freq[input[k]] + 1];
    }
    assert input[..|input|] == input;
  }

  lemma {:induction false} CountSnocAt(input: Text, x: Byte, c: nat)
    ensures Count(input + [x], c) == Count(input, c) + if x == c then 1 else 0
  {
    if input == [] { assert input + [x] == [x]; assert Count([x][1..], c) == 0; }
    else { CountSnocAt(input[1..], x, c); assert (input + [x])[1..] == input[1..] + [x]; }
  }

  lemma CountSnoc(input: Text, x: Byte)
    ensures forall c: nat :: Count(input + [x], c) == Count(input, c) + if x == c then 1 else 0
  {
    forall c: nat ensures Count(input + [x], c) == Count(input, c) + if x == c then 1 else 0 {
      CountSnocAt(input, x, c);
    }
  }

  function AllIndices(n: nat): (s: seq<nat>)
    ensures |s| == n && forall i :: 0 <= i < n ==> s[i] == i
  {
    if n == 0 then [] else AllIndices(n - 1) + [n - 1]
  }

  /** The leaves, in character order, all active. */
  method MakeLeaves(input: Text, freq: seq<nat>) returns (ns: Table)
    requires 0 !in input
    requires |freq| == 256 && forall c :: 0 <= c < 256 ==> freq[c] == Count(input, c)
    ensures |ns| == |LeafForest(input)| <= 255
    ensures forall i :: 0 <= i < |ns| ==> ns[i].ch != 0 && ns[i].active && ns[i].left == -1 && ns[i].right == -1
    ensures forall i :: 0 <= i < |ns| ==> Leaf(ns[i].ch, ns[i].freq) == LeafForest(input)[i]
  {
    ns := [];
    CountIn(input, 0);
    for i := 0 to 256
      invariant |ns| == |LeavesBelow(input, i)| <= i && (i > 0 ==> |ns| < i)
      invariant forall k :: 0 <= k < |ns| ==> ns[k].ch != 0 && ns[k].active && ns[k].left == -1 && ns[k].right == -1
      invariant forall k :: 0 <= k < |ns| ==> Leaf(ns[k].ch, ns[k].freq) == LeavesBelow(input, i)[k]
    {
      if freq[i] > 0 {
        ns := ns + [TempNode(i, freq[i], -1, -1, true)];
      }
    }
  }

  // -------------------------------------------------------------- the merge

  /** Among the first `seen` weights, `a` is the first of the lightest and `b` the first of the lightest of the
      others, or -1. */
  ghost predicate Scanned(ws: seq<nat>, seen: nat, a: int, b: int) {
    && seen <= |ws| && (a == -1 <==> seen == 0) && (b == -1 <==> seen < 2) && (seen == 1 ==> a == 0)
    && (a != -1 ==> 0 <= a < seen && forall k :: 0 <= k < a ==> ws[a] < ws[k])
    && (b != -1 ==>
         && 0 <= b < seen && a != b && ws[a] <= ws[b]
         && (forall k :: 0 <= k < seen && k != a && k != b ==> ws[b] <= ws[k])
         && (forall k :: 0 <= k < b && k != a ==> ws[b] < ws[k]))
  }

  lemma ScanStep(ws: seq<nat>, seen: nat, a: int, b: int)
    requires Scanned(ws, seen, a, b) && seen < |ws|
    ensures if a == -1 || ws[seen] < ws[a] then Scanned(ws, seen + 1, seen, a)
            else if b == -1 || ws[seen] < ws[b] then Scanned(ws, seen + 1, a, seen)
            else Scanned(ws, seen + 1, a, b)
  {}

  ghost function ActiveFreqs(ns: Table, act: seq<nat>): (ws: seq<nat>)
    requires forall k :: 0 <= k < |act| ==> act[k] < |ns|
    ensures |ws| == |act| && forall k {:trigger act[k]} {:trigger ws[k]} :: 0 <= k < |act| ==> ws[k] == ns[act[k]].freq
  {
    seq(|act|, k requires 0 <= k < |act| => ns[act[k]].freq)
  }

  /** `first` and `second` are the two lightest active nodes, the earlier among equals, at `a` and `b` of `act`. */
  ghost predicate Picked(ns: Table, act: seq<nat>, first: int, second: int, a: int, b: int)
    requires ActiveList(ns, act)
  {
    && 0 <= a < |act| && 0 <= b < |act| && a != b && first == act[a] && second == act[b]
    && ns[first].freq <= ns[second].freq
    && (forall k :: 0 <= k < |act| && k != a && k != b ==> ns[second].freq <= ns[act[k]].freq)
    && (forall k :: 0 <= k < a ==> ns[first].freq < ns[act[k]].freq)
    && (forall k :: 0 <= k < b && k != a ==> ns[second].freq < ns[act[k]].freq)
  }

  lemma ScanEnds(ns: Table, act: seq<nat>, a: int, b: int)
    requires ActiveList(ns, act) && Scanned(ActiveFreqs(ns, act), |act|, a, b)
    ensures b == -1 <==> |act| < 2
    ensures b != -1 ==> 0 <= a < |act| && 0 <= b < |act| && Picked(ns, act, act[a], act[b], a, b)
  {}

  /** The next active node is the next of the list. */
  lemma NextActive(ns: Table, act: seq<nat>, seen: nat, i: nat)
    requires ActiveList(ns, act) && i < |ns| && seen <= |act|
    requires forall k :: 0 <= k < seen ==> act[k] < i
    requires forall k :: seen <= k < |act| ==> i <= act[k]
    ensures ns[i].active ==> seen < |act| && act[seen] == i
    ensures !ns[i].active ==> forall k :: seen <= k < |act| ==> i < act[k]
  {
    if ns[i].active { assert i in act; }
  }

  /** One scan over the table. */
  method PickTwo(ns: Table, ghost act: seq<nat>) returns (first: int, second: int, ghost a: int, ghost b: int)
    requires ActiveList(ns, act)
    ensures second == -1 <==> |act| < 2
    ensures second != -1 ==> Picked(ns, act, first, second, a, b)
  {
    first, second := -1, -1;
    a, b := -1, -1;
    ghost var seen, ws := 0, ActiveFreqs(ns, act);
    for i := 0 to |ns|
      invariant 0 <= seen <= |act| && Scanned(ws, seen, a, b)
      invariant forall k :: 0 <= k < seen ==> act[k] < i
      invariant forall k :: seen <= k < |act| ==> i <= act[k]
      invariant if a == -1 then first == -1 else 0 <= a < seen && first == act[a]
      invariant if b == -1 then second == -1 else 0 <= b < seen && second == act[b]
    {
      hide Scanned;
      NextActive(ns, act, seen, i);
      if ns[i].active {
        ScanStep(ws, seen, a, b);
        if first == -1 || ns[i].freq < ns[first].freq {
          second, b := first, a;
          first, a := i, seen;
        } else if second == -1 || ns[i].freq < ns[second].freq {
          second, b := i, seen;
        }
        seen := seen + 1;
      }
    }
    ScanEnds(ns, act, a, b);
  }

  function Joined(ns: Table, first: nat, second: nat): Table
    requires first < |ns| && second < |ns|
  {
    ns[first := ns[first].(active := false)][second := ns[second].(active := false)]
      + [TempNode(0, ns[first].freq + ns[second].freq, first, second, true)]
  }

  lemma JoinedTable(ns: Table, first: nat, second: nat)
    requires TableOk(ns) && FreqOk(ns) && first < |ns| && second < |ns| && first != second
    ensures TableOk(Joined(ns, first, second)) && FreqOk(Joined(ns, first, second))
    ensures forall i :: 0 <= i < |ns| ==> TreeAt(Joined(ns, first, second), i) == TreeAt(ns, i)
    ensures TreeAt(Joined(ns, first, second), |ns|) == Node(TreeAt(ns, first), TreeAt(ns, second))
  {
    var ns' := Joined(ns, first, second);
    assert TableOk(ns');
    forall i | 0 <= i < |ns| ensures TreeAt(ns', i) == TreeAt(ns, i) { TreeAtFrame(ns, ns', i); }
    forall i | 0 <= i < |ns'| ensures ns'[i].freq == Weight(TreeAt(ns', i)) {}
  }

  /** Position `k` of a list without positions `lo` and `hi`, in the whole list. */
  function Skip(lo: nat, hi: nat, k: nat): nat { if k < lo then k else if k + 1 < hi then k + 1 else k + 2 }

  lemma OthersStayActive(ns: Table, act: seq<nat>, a: nat, b: nat, m: nat)
    requires ActiveList(ns, act) && a < |act| && b < |act| && a != b && m < |act| && m != a && m != b
    ensures act[m] < |ns| && Joined(ns, act[a], act[b])[act[m]].active
  {
    assert act[m] != act[a] by { if m < a {} else {} }
    assert act[m] != act[b] by { if m < b {} else {} }
  }

  lemma StillActive(ns: Table, act: seq<nat>, a: nat, b: nat, i: nat) returns (m: nat)
    requires ActiveList(ns, act) && a < |act| && b < |act| && a != b
    requires i < |ns| && Joined(ns, act[a], act[b])[i].active
    ensures m < |act| && act[m] == i && m != a && m != b
  {
    assert ns[i].active;
    m :| 0 <= m < |act| && act[m] == i;
  }

  lemma SkipSorted(ns: Table, act: seq<nat>, lo: nat, hi: nat, act': seq<nat>, k: nat, m: nat)
    requires ActiveList(ns, act) && lo < hi < |act| && |act'| == |act| - 1 && k < m < |act'|
    requires forall j :: 0 <= j < |act'| ==> act'[j] == if j == |act| - 2 then |ns| else act[Skip(lo, hi, j)]
    ensures act'[k] < act'[m]
  {}

  lemma {:induction false} JoinedActive(ns: Table, act: seq<nat>, a: nat, b: nat)
    requires ActiveList(ns, act) && a < |act| && b < |act| && a != b
    ensures ActiveList(Joined(ns, act[a], act[b]), Replace2<nat>(act, a, b, |ns|))
  {
    hide Replace2, RemoveAt;
    var ns', act' := Joined(ns, act[a], act[b]), Replace2<nat>(act, a, b, |ns|);
    var lo, hi := if a < b then a else b, if a < b then b else a;
    forall k | 0 <= k < |act'| ensures act'[k] == if k == |act| - 2 then |ns| else act[Skip(lo, hi, k)] {
      Replace2At<nat>(act, a, b, |ns|, k);
    }
    hide ActiveList, Joined;
    forall k | 0 <= k < |act'| ensures act'[k] < |ns'| && ns'[act'[k]].active {
      JoinedLast(ns, act, a, b);
      if k < |act| - 2 { OthersStayActive(ns, act, a, b, Skip(lo, hi, k)); }
    }
    forall k, m | 0 <= k < m < |act'| ensures act'[k] < act'[m] { SkipSorted(ns, act, lo, hi, act', k, m); }
    forall i | 0 <= i < |ns'| && ns'[i].active ensures i in act' {
      JoinedLast(ns, act, a, b);
      if i == |ns| {
        assert act'[|act|-2] == i;
      } else {
        var m := StillActive(ns, act, a, b, i);
        assert act'[if m < lo then m else if m < hi then m - 1 else m - 2] == i;
      }
    }
    ActiveListIs(ns', act');
  }

  lemma ActiveListIs(ns: Table, act: seq<nat>)
    requires forall k :: 0 <= k < |act| ==> act[k] < |ns| && ns[act[k]].active
    requires forall k, m :: 0 <= k < m < |act| ==> act[k] < act[m]
    requires forall i :: 0 <= i < |ns| && ns[i].active ==> i in act
    ensures ActiveList(ns, act)
  {}

  lemma JoinedLast(ns: Table, act: seq<nat>, a: nat, b: nat)
    requires ActiveList(ns, act) && a < |act| && b < |act| && a != b
    ensures act[a] < |ns| && act[b] < |ns|
    ensures |Joined(ns, act[a], act[b])| == |ns| + 1 && Joined(ns, act[a], act[b])[|ns|].active
  {}

  lemma JoinedForest(ns: Table, act: seq<nat>, a: nat, b: nat)
    requires TableOk(ns) && FreqOk(ns) && ActiveList(ns, act) && a < |act| && b < |act| && a != b
    requires ns[act[a]].freq <= ns[act[b]].freq
    requires forall k :: 0 <= k < |act| && k != a && k != b ==> ns[act[b]].freq <= ns[act[k]].freq
    requires forall k :: 0 <= k < a ==> ns[act[a]].freq < ns[act[k]].freq
    requires forall k :: 0 <= k < b && k != a ==> ns[act[b]].freq < ns[act[k]].freq
    ensures TableOk(Joined(ns, act[a], act[b]))
    ensures ActiveList(Joined(ns, act[a], act[b]), Replace2<nat>(act, a, b, |ns|))
    ensures FirstTwo(ForestOf(ns, act), a, b)
    ensures ForestOf(Joined(ns, act[a], act[b]), Replace2<nat>(act, a, b, |ns|)) == Merged(ForestOf(ns, act), a, b)
  {
    assert act[a] != act[b] by { if a < b {} else {} }
    JoinedTable(ns, act[a], act[b]);
    JoinedActive(ns, act, a, b);
    ActiveWeights(ns, act);
    SameForest(ns, act, a, b, Joined(ns, act[a], act[b]));
  }

  lemma ActiveWeights(ns: Table, act: seq<nat>)
    requires TableOk(ns) && FreqOk(ns) && forall k :: 0 <= k < |act| ==> act[k] < |ns|
    ensures forall k :: 0 <= k < |act| ==> Weight(ForestOf(ns, act)[k]) == ns[act[k]].freq
  {}

  lemma {:induction false} SameForest(ns: Table, act: seq<nat>, a: nat, b: nat, ns': Table)
    requires TableOk(ns) && TableOk(ns') && |ns'| == |ns| + 1 && a < |act| && b < |act| && a != b
    requires forall k :: 0 <= k < |act| ==> act[k] < |ns|
    requires forall i :: 0 <= i < |ns| ==> TreeAt(ns', i) == TreeAt(ns, i)
    requires TreeAt(ns', |ns|) == Node(TreeAt(ns, act[a]), TreeAt(ns, act[b]))
    requires forall k :: 0 <= k < |act| - 1 ==> Replace2<nat>(act, a, b, |ns|)[k] < |ns'|
    ensures ForestOf(ns', Replace2<nat>(act, a, b, |ns|)) == Merged(ForestOf(ns, act), a, b)
  {
    hide Replace2, RemoveAt, TableOk;
    var f, act' := ForestOf(ns, act), Replace2<nat>(act, a, b, |ns|);
    var g, x := ForestOf(ns', act'), Node(f[a], f[b]);
    forall k | 0 <= k < |g| ensures g[k] == Merged(f, a, b)[k] {
      Replace2At<nat>(act, a, b, |ns|, k);
      Replace2At(f, a, b, x, k);
    }
  }

  /** Merge the two lightest until one is left; the last node is the root. */
  method MergeAll(leaves: Table, ghost f0: Forest) returns (ns: Table, ghost t: Tree)
    requires |leaves| == |f0| >= 1
    requires forall i :: 0 <= i < |leaves| ==>
      leaves[i].ch != 0 && leaves[i].active && leaves[i].left == -1 && leaves[i].right == -1
    requires forall i :: 0 <= i < |leaves| ==> Leaf(leaves[i].ch, leaves[i].freq) == f0[i]
    ensures TableOk(ns) && |ns| == 2 * |leaves| - 1
    ensures t == TreeAt(ns, |ns| - 1) && Builds(f0, t)
  {
    hide Builds, TableOk, FreqOk, ActiveList, Merging, Replace2, AllIndices;
    ns := leaves;
    ghost var act: seq<nat> := AllIndices(|ns|);
    LeavesStart(ns, act, f0);
    while true
      invariant Merging(ns, act, f0) && |ns| + |act| == 2 * |leaves|
      decreases |act|
    {
      var first, second; ghost var a, b;
      MergingParts(ns, act, f0);
      first, second, a, b := PickTwo(ns, act);
      if second == -1 { break; }
      MergeStep(ns, act, f0, a, b);
      ghost var joined := Joined(ns, first, second);
      var parent := TempNode(0, ns[first].freq + ns[second].freq, first, second, true);
      act := Replace2<nat>(act, a, b, |ns|);
      ns := ns[first := ns[first].(active := false)];
      ns := ns[second := ns[second].(active := false)];
      ns := ns + [parent];
      assert ns == joined;
    }
    t := MergeEnd(ns, act, f0);
  }

  lemma {:induction false} MergingParts(ns: Table, act: seq<nat>, f0: Forest)
    requires Merging(ns, act, f0)
    ensures ActiveList(ns, act) && |act| >= 1 && forall k :: 0 <= k < |act| ==> act[k] < |ns|
  {
    hide Builds, TableOk, FreqOk;
  }

  /** What the merge keeps: every tree that completes the active nodes completes the leaves. */
  ghost predicate Merging(ns: Table, act: seq<nat>, f0: Forest) {
    && TableOk(ns) && FreqOk(ns) && ActiveList(ns, act)
    && |act| >= 1 && act[|act|-1] == |ns| - 1
    && forall u :: Builds(ForestOf(ns, act), u) ==> Builds(f0, u)
  }

  lemma {:induction false} LeavesStart(ns: Table, act: seq<nat>, f0: Forest)
    requires |ns| == |f0| >= 1 && act == AllIndices(|ns|)
    requires forall i :: 0 <= i < |ns| ==> ns[i].ch != 0 && ns[i].active && ns[i].left == -1 && ns[i].right == -1
    requires forall i :: 0 <= i < |ns| ==> Leaf(ns[i].ch, ns[i].freq) == f0[i]
    ensures Merging(ns, act, f0)
  {
    hide Builds;
    assert TableOk(ns);
    forall i | 0 <= i < |ns| ensures i in act { assert act[i] == i; }
    assert ForestOf(ns, act) == f0;
  }

  lemma {:induction false} MergeStep(ns: Table, act: seq<nat>, f0: Forest, a: nat, b: nat)
    requires Merging(ns, act, f0) && a < |act| && b < |act| && a != b
    requires act[a] < |ns| && act[b] < |ns| && ns[act[a]].freq <= ns[act[b]].freq
    requires forall k :: 0 <= k < |act| && k != a && k != b ==> ns[act[b]].freq <= ns[act[k]].freq
    requires forall k :: 0 <= k < a ==> ns[act[a]].freq < ns[act[k]].freq
    requires forall k :: 0 <= k < b && k != a ==> ns[act[b]].freq < ns[act[k]].freq
    ensures act[a] != act[b] && Merging(Joined(ns, act[a], act[b]), Replace2<nat>(act, a, b, |ns|), f0)
  {
    assert act[a] != act[b] by { if a < b {} else {} }
    JoinedForest(ns, act, a, b);
    JoinedTable(ns, act[a], act[b]);
    Replace2At<nat>(act, a, b, |ns|, |act| - 2);
    hide TableOk, FreqOk, ActiveList, Builds, Replace2, Joined;
    var f, f' := ForestOf(ns, act), ForestOf(Joined(ns, act[a], act[b]), Replace2<nat>(act, a, b, |ns|));
    forall u | Builds(f', u) ensures Builds(f0, u) { BuildsStep(f, a, b, u); }
    assert |Joined(ns, act[a], act[b])| == |ns| + 1 by { JoinedLast(ns, act, a, b); }
  }

  lemma BuildsStep(f: Forest, a: nat, b: nat, u: Tree)
    requires FirstTwo(f, a, b) && Builds(Merged(f, a, b), u)
    ensures Builds(f, u)
  {}

  lemma {:induction false} MergeEnd(ns: Table, act: seq<nat>, f0: Forest) returns (t: Tree)
    requires Merging(ns, act, f0) && |act| < 2
    ensures |act| == 1 && TableOk(ns) && |ns| > 0 && t == TreeAt(ns, |ns| - 1) && Builds(f0, t)
  {
    t := TreeAt(ns, |ns| - 1);
    assert ForestOf(ns, act) == [t];
    assert Builds([t], t);
  }

  // ------------------------------------------------------------- flattening

  /** A link is minus a character, or the index of a later node. */
  datatype FlatNode = FlatNode(left: int, right: int)

  function Inner(t: Tree): nat {
    if t.Leaf? then 0 else 1 + Inner(t.left) + Inner(t.right)
  }

  ghost function ForestInner(f: Forest): nat {
    if f == [] then 0 else Inner(f[0]) + ForestInner(f[1..])
  }

  lemma {:induction false} ForestInnerDrop(f: Forest, i: nat)
    requires i < |f|
    ensures ForestInner(f) == ForestInner(RemoveAt(f, i)) + Inner(f[i])
  {
    if i == 0 { assert RemoveAt(f, 0) == f[1..]; }
    else { ForestInnerDrop(f[1..], i - 1); assert RemoveAt(f, i)[1..] == RemoveAt(f[1..], i - 1); }
  }

  lemma {:induction false} ForestInnerSnoc(f: Forest, x: Tree)
    ensures ForestInner(f + [x]) == ForestInner(f) + Inner(x)
  {
    if f == [] { assert f + [x] == [x]; assert ForestInner([x][1..]) == 0; }
    else { ForestInnerSnoc(f[1..], x); assert (f + [x])[1..] == f[1..] + [x]; }
  }

  lemma MergedInner(f: Forest, i: nat, j: nat)
    requires i < |f| && j < |f| && i != j
    ensures ForestInner(Merged(f, i, j)) == ForestInner(f) + 1
  {
    var hi, lo := if i < j then j else i, if i < j then i else j;
    ForestInnerDrop(f, hi);
    ForestInnerDrop(RemoveAt(f, hi), lo);
    assert RemoveAt(f, hi)[lo] == f[lo];
    ForestInnerSnoc(RemoveAt(RemoveAt(f, hi), lo), Node(f[i], f[j]));
    assert Merged(f, i, j) == RemoveAt(RemoveAt(f, hi), lo) + [Node(f[i], f[j])];
  }

  /** Each merge adds one inner node. */
  lemma {:induction false} ReducesInner(f: Forest, t: Tree)
    requires Reduces(f, t)
    ensures Inner(t) == ForestInner(f) + |f| - 1
    decreases |f|
  {
    if f == [t] {
      assert ForestInner(f) == Inner(f[0]) + ForestInner(f[1..]);
    } else {
      var i: nat, j: nat :| TwoLeast(f, i, j) && Reduces(Merged(f, i, j), t);
      MergedInner(f, i, j);
      ReducesInner(Merged(f, i, j), t);
    }
  }

  /** Links to inner nodes lead forward. */
  ghost predicate FlatOk(flat: seq<FlatNode>) {
    forall k :: 0 <= k < |flat| ==>
      (flat[k].left > 0 ==> k < flat[k].left < |flat|) && (flat[k].right > 0 ==> k < flat[k].right < |flat|)
  }

  /** The flat array holds the tree `t` at `link`. */
  ghost predicate Holds(flat: seq<FlatNode>, link: int, t: Tree)
    decreases t
  {
    match t
    case Leaf(ch, _) => ch > 0 && link == 0 - ch
    case Node(l, r) =>
      && 0 <= link < |flat|
      && (l.Node? ==> link < flat[link].left) && (r.Node? ==> link < flat[link].right)
      && Holds(flat, flat[link].left, l) && Holds(flat, flat[link].right, r)
  }

  /** Where a walk down the array ends: left on a 0, right on a 1. */
  function Arrive(flat: seq<FlatNode>, link: int, p: Bits): int
    decreases |p|
  {
    if p == [] || !(0 <= link < |flat|) then link
    else Arrive(flat, if p[0] then flat[link].right else flat[link].left, p[1..])
  }

  /** The walk along the path of a character ends at that character. */
  lemma {:induction false} PathArrives(flat: seq<FlatNode>, link: int, t: Tree, ch: nat)
    requires Holds(flat, link, t) && ch in Chars(t)
    ensures Arrive(flat, link, Path(t, ch)) == 0 - ch
    decreases t
  {
    if t.Node? {
      var p := Path(t, ch);
      if ch in Chars(t.left) {
        PathArrives(flat, flat[link].left, t.left, ch);
        assert p[1..] == Path(t.left, ch);
      } else {
        PathArrives(flat, flat[link].right, t.right, ch);
        assert p[1..] == Path(t.right, ch);
      }
    }
  }

  /** The link of a child: its character, or its place in the queue. */
  ghost predicate LinkTo(ns: Table, queue: seq<nat>, k: nat, link: int, child: int) {
    && 0 <= child < |ns|
    && if ns[child].ch != 0 then link == 0 - ns[child].ch else k < link < |queue| && queue[link] == child
  }

  ghost predicate FlatStep(ns: Table, queue: seq<nat>, flat: seq<FlatNode>, k: nat)
    requires k < |queue| && k < |flat| && queue[k] < |ns|
  {
    && ns[queue[k]].ch == 0
    && LinkTo(ns, queue, k, flat[k].left, ns[queue[k]].left)
    && LinkTo(ns, queue, k, flat[k].right, ns[queue[k]].right)
  }

  ghost function QueueInner(ns: Table, queue: seq<nat>): nat
    requires TableOk(ns) && forall k :: 0 <= k < |queue| ==> queue[k] < |ns|
  {
    if queue == [] then 0 else Inner(TreeAt(ns, queue[0])) + QueueInner(ns, queue[1..])
  }

  lemma {:induction false} QueueInnerSnoc(ns: Table, queue: seq<nat>, x: nat)
    requires TableOk(ns) && (forall k :: 0 <= k < |queue| ==> queue[k] < |ns|) && x < |ns|
    ensures QueueInner(ns, queue + [x]) == QueueInner(ns, queue) + Inner(TreeAt(ns, x))
  {
    if queue == [] { assert queue + [x] == [x]; assert QueueInner(ns, [x][1..]) == 0; }
    else { QueueInnerSnoc(ns, queue[1..], x); assert (queue + [x])[1..] == queue[1..] + [x]; }
  }

  lemma {:induction false} FlatHolds(ns: Table, queue: seq<nat>, flat: seq<FlatNode>, k: nat)
    requires TableOk(ns) && |flat| == |queue| && k < |queue|
    requires forall i :: 0 <= i < |queue| ==> queue[i] < |ns| && FlatStep(ns, queue, flat, i)
    ensures Holds(flat, k, TreeAt(ns, queue[k]))
    decreases queue[k]
  {
    assert FlatStep(ns, queue, flat, k);
    var n := ns[queue[k]];
    if ns[n.left].ch == 0 { FlatHolds(ns, queue, flat, flat[k].left); }
    if ns[n.right].ch == 0 { FlatHolds(ns, queue, flat, flat[k].right); }
  }

  /** Enqueue an inner child, or keep the character of a leaf. */
  method Visit(ns: Table, queue: seq<nat>, k: nat, child: nat) returns (queue': seq<nat>, link: int)
    requires TableOk(ns) && child < |ns| && k < |queue|
    requires forall i :: 0 <= i < |queue| ==> queue[i] < |ns| && ns[queue[i]].ch == 0
    ensures queue <= queue' && forall i :: 0 <= i < |queue'| ==> queue'[i] < |ns| && ns[queue'[i]].ch == 0
    ensures LinkTo(ns, queue', k, link, child)
    ensures if link > 0 then link == |queue| && |queue'| == |queue| + 1 else queue' == queue
    ensures QueueInner(ns, queue'[k+1..]) == QueueInner(ns, queue[k+1..]) + Inner(TreeAt(ns, child))
  {
    if ns[child].ch != 0 {
      return queue, 0 - ns[child].ch;
    }
    QueueInnerSnoc(ns, queue[k+1..], child);
    queue', link := queue + [child], |queue|;
    assert queue'[k+1..] == queue[k+1..] + [child];
  }

  /** The entry of the node at place `k` of the queue; its inner children join the queue, left before right. */
  method VisitChildren(ns: Table, queue: seq<nat>, k: nat) returns (queue': seq<nat>, x: FlatNode)
    requires TableOk(ns) && k < |queue|
    requires forall i :: 0 <= i < |queue| ==> queue[i] < |ns| && ns[queue[i]].ch == 0
    ensures queue <= queue' && forall i :: 0 <= i < |queue'| ==> queue'[i] < |ns| && ns[queue'[i]].ch == 0
    ensures LinkTo(ns, queue', k, x.left, ns[queue[k]].left) && LinkTo(ns, queue', k, x.right, ns[queue[k]].right)
    ensures |queue'| == |queue| + (if x.left > 0 then 1 else 0) + (if x.right > 0 then 1 else 0)
    ensures (x.left > 0 ==> x.left == |queue|) && (x.right > 0 ==> x.right == |queue'| - 1)
    ensures var n := ns[queue[k]];
      QueueInner(ns, queue'[k+1..])
        == QueueInner(ns, queue[k+1..]) + Inner(TreeAt(ns, n.left)) + Inner(TreeAt(ns, n.right))
  {
    hide QueueInner, LinkTo, TreeAt, Inner;
    var n := ns[queue[k]];
    var left, right;
    queue', left := Visit(ns, queue, k, n.left);
    ghost var middle := queue';
    queue', right := Visit(ns, queue', k, n.right);
    LinkPrefix(ns, middle, queue', k, left, n.left);
    x := FlatNode(left, right);
  }

  lemma QueueStart(ns: Table, root: nat)
    requires TableOk(ns) && root < |ns|
    ensures [root][0..] == [root] && QueueInner(ns, [root]) == Inner(TreeAt(ns, root))
  {
    assert QueueInner(ns, [root]) == Inner(TreeAt(ns, root)) + QueueInner(ns, [root][1..]);
  }

  lemma QueueEnd(ns: Table, queue: seq<nat>, q: nat)
    requires TableOk(ns) && q == |queue|
    ensures QueueInner(ns, queue[q..]) == 0
  {}

  /** Taking the front of the queue pays for one node and its two children. */
  lemma QueueTakes(ns: Table, queue: seq<nat>, q: nat)
    requires TableOk(ns) && q < |queue| && forall k :: 0 <= k < |queue| ==> queue[k] < |ns| && ns[queue[k]].ch == 0
    ensures QueueInner(ns, queue[q..]) >= 1
    ensures var n := ns[queue[q]];
            QueueInner(ns, queue[q..])
              == 1 + Inner(TreeAt(ns, n.left)) + Inner(TreeAt(ns, n.right)) + QueueInner(ns, queue[q+1..])
  {
    assert queue[q..][1..] == queue[q+1..];
    assert TreeAt(ns, queue[q]).Node?;
  }

  lemma LinkPrefix(ns: Table, queue: seq<nat>, queue': seq<nat>, k: nat, link: int, child: int)
    requires queue <= queue' && LinkTo(ns, queue, k, link, child)
    ensures LinkTo(ns, queue', k, link, child)
  {}

  lemma NewStep(ns: Table, queue: seq<nat>, flat: seq<FlatNode>, k: nat)
    requires k < |queue| && |flat| == k + 1 && queue[k] < |ns| && ns[queue[k]].ch == 0
    requires LinkTo(ns, queue, k, flat[k].left, ns[queue[k]].left)
    requires LinkTo(ns, queue, k, flat[k].right, ns[queue[k]].right)
    ensures FlatStep(ns, queue, flat, k)
  {}

  lemma StepPrefix(ns: Table, queue: seq<nat>, queue': seq<nat>, flat: seq<FlatNode>, flat': seq<FlatNode>, k: nat)
    requires queue <= queue' && flat <= flat' && k < |queue| && k < |flat| && queue[k] < |ns|
    requires FlatStep(ns, queue, flat, k)
    ensures FlatStep(ns, queue', flat', k)
  {
    LinkPrefix(ns, queue, queue', k, flat[k].left, ns[queue[k]].left);
    LinkPrefix(ns, queue, queue', k, flat[k].right, ns[queue[k]].right);
  }

  /** One more entry: the earlier steps stand, and the new one is a step. */
  lemma {:induction false} StepsKept(ns: Table, queue: seq<nat>, queue': seq<nat>, flat: seq<FlatNode>, x: FlatNode)
    requires queue <= queue' && |flat| < |queue|
    requires forall k :: 0 <= k < |queue| ==> queue[k] < |ns| && ns[queue[k]].ch == 0
    requires forall k :: 0 <= k < |flat| ==> FlatStep(ns, queue, flat, k)
    requires LinkTo(ns, queue', |flat|, x.left, ns[queue[|flat|]].left)
    requires LinkTo(ns, queue', |flat|, x.right, ns[queue[|flat|]].right)
    ensures forall k :: 0 <= k <= |flat| ==> queue'[k] < |ns| && FlatStep(ns, queue', flat + [x], k)
  {
    hide FlatStep, LinkTo;
    forall k | 0 <= k <= |flat| ensures queue'[k] < |ns| && FlatStep(ns, queue', flat + [x], k) {
      assert queue'[k] == queue[k];
      if k < |flat| { StepPrefix(ns, queue, queue', flat, flat + [x], k); }
      else { NewStep(ns, queue', flat + [x], k); }
    }
  }

  lemma FlatIsOk(ns: Table, queue: seq<nat>, flat: seq<FlatNode>)
    requires |flat| == |queue| && forall i :: 0 <= i < |queue| ==> queue[i] < |ns| && FlatStep(ns, queue, flat, i)
    ensures FlatOk(flat)
  {
    forall k | 0 <= k < |flat|
      ensures (flat[k].left > 0 ==> k < flat[k].left < |flat|) && (flat[k].right > 0 ==> k < flat[k].right < |flat|)
    {
      assert FlatStep(ns, queue, flat, k);
    }
  }

  /** The links to inner nodes, entry by entry, left before right. */
  function Links(flat: seq<FlatNode>): seq<int> {
    if flat == [] then []
    else
      var n := flat[|flat|-1];
      Links(flat[..|flat|-1]) + (if n.left > 0 then [n.left] else []) + (if n.right > 0 then [n.right] else [])
  }

  /** Breadth-first order: read entry by entry, the links count up from one. */
  ghost predicate Numbered(flat: seq<FlatNode>, n: nat) {
    |Links(flat)| == n && forall i :: 0 <= i < n ==> Links(flat)[i] == i + 1
  }

  lemma NoLinks()
    ensures Numbered([], 0)
  {}

  lemma NumberedMore(flat: seq<FlatNode>, x: FlatNode, n: nat, m: nat)
    requires Numbered(flat, n)
    requires m == n + (if x.left > 0 then 1 else 0) + (if x.right > 0 then 1 else 0)
    requires x.left > 0 ==> x.left == n + 1
    requires x.right > 0 ==> x.right == m
    ensures Numbered(flat + [x], m)
  {
    assert (flat + [x])[..|flat|] == flat;
  }

  /** Breadth-first flattening from the root, the last node of the table. */
  method Flatten(ns: Table) returns (flat: seq<FlatNode>)
    requires TableOk(ns) && ns != []
    ensures var t := TreeAt(ns, |ns| - 1);
      |flat| == Inner(t) && FlatOk(flat) && (t.Node? ==> Holds(flat, 0, t) && Numbered(flat, |flat| - 1))
  {
    var root := |ns| - 1;
    flat := [];
    if ns[root].ch != 0 { return; }
    ghost var t := TreeAt(ns, root);
    var queue: seq<nat> := [root];
    QueueStart(ns, root);
    hide QueueInner, FlatStep, TreeAt, Holds, Numbered, LinkTo, FlatOk, Inner;
    NoLinks();
    var q := 0;
    while q < |queue|
      invariant 0 <= q <= |queue| && |flat| == q
      invariant queue != [] && queue[0] == root && Numbered(flat, |queue| - 1)
      invariant forall k :: 0 <= k < |queue| ==> queue[k] < |ns| && ns[queue[k]].ch == 0
      invariant forall k :: 0 <= k < q ==> FlatStep(ns, queue, flat, k)
      invariant q + QueueInner(ns, queue[q..]) == Inner(t)
      decreases Inner(t) - q
    {
      QueueTakes(ns, queue, q);
      ghost var before := queue;
      var x;
      queue, x := VisitChildren(ns, queue, q);
      NumberedMore(flat, x, |before| - 1, |queue| - 1);
      StepsKept(ns, before, queue, flat, x);
      flat := flat + [x];
      q := q + 1;
    }
    QueueEnd(ns, queue, q);
    FlatHolds(ns, queue, flat, 0);
    FlatIsOk(ns, queue, flat);
  }
}
